# RESP decoder, argument parser and key-value table, in Dafny

This project models the core of a small Redis-compatible server written in
TypeScript, and proves properties of that model:

- **The RESP decoder** (`app/parser.ts`). RESP is the Redis Serialization
  Protocol. The decoder reads integers (`:`), simple strings (`+`), bulk
  strings (`$`) and arrays (`*`) from a byte buffer. It threads an
  explicit `(input, index)` state through four decoders. The dispatcher
  `parseWithState` and `parseArray` call each other recursively.
  Module `RespParser` models it:
  - the decoders are functions;
  - the delimiter scan of `findDelimiter` is a method with a loop;
  - the element loop of `parseArray` is a method with a loop.

  Each method is proved equal to its function.
- **A reference encoder** (module `RespEncoding`). It is the decoder's
  partner: every well-formed value decodes from its encoding. It stops
  exactly at the end of the encoding, whatever bytes follow.
- **The decoding examples** of `app/parser.spec.ts` (module
  `RespExamples`), stated as lemmas with the same buffers and offsets.
- **The command-line parser** (`app/cli-args.ts`, module `CliArgsParser`).
  A `while` loop walks the arguments in pairs and overwrites the fields of
  a record that starts from the defaults. It is proved equal to a fold.
  The fold has a closed form: each field takes the value of the last pair
  with its key.
- **The key-value table** (`app/database.ts`, module `Database`). It is a
  class holding a `map<string, Value>` with point reads and writes.

The code and the Redis serialization protocol specification (RESP2)
disagree on one point. The protocol gives integers as
`:[<+|->]<value>\r\n`, a signed decimal with at least one digit, so an
empty body is not an integer. The code converts the body with JavaScript's
`Number`, which turns the empty body into 0, so `:\r\n` decodes to 0. The model follows the code
(`RespExamples.EmptyNumberExample`).

Buffers are sequences of the `byte` newtype (0..255). Decoded strings stay
byte sequences. Arguments and keys are Dafny `string`s. `Option` and
`Result` come from module `Wrappers`. The JavaScript `undefined`, `null`
and `O.None` are `None`. A thrown error is a `Failure`.

## Model

| member | source | states |
|---|---|---|
| RespParser.Data.Tag | app/parser.ts:5-34 | each kind of value carries one of the four tag bytes `:` `+` `$` `*` |
| RespParser.CrlfAtMatches | app/parser.ts:46 | CR LF at `i` is exactly a match of the two-byte delimiter at `i` |
| RespParser.FirstDelimiter | app/parser.ts:52-63 | the scan result is -1 or an index at or after the start whose delimiter fits in the buffer |
| RespParser.FirstDelimiterFinds | app/parser.ts:52-63 | -1 exactly when no occurrence starts at or after the start (including when fewer bytes than the delimiter remain); otherwise the first occurrence |
| RespParser.FirstDelimiterAt | app/parser.ts:52-63 | conversely, the first occurrence after the start is the index returned |
| RespParser.FirstCrlfMatch | app/parser.ts:52-63 | the first CRLF match found by the scan is the first index holding CR LF |
| RespParser.FindDelimiter | app/parser.ts:52-63 | the `for` loop returns the first match from `state.index`, or -1 |
| RespParser.ReadUntilDelimiter | app/parser.ts:65-78 | on success the new state is in the same buffer, just past the text and the delimiter, and within bounds |
| RespParser.ReadUntilDelimiterFinds | app/parser.ts:65-78 | fails exactly when no delimiter follows; on success the text is the bytes from the index up to the first delimiter |
| RespParser.HasPrefix | app/parser.ts:48-50 | a tag matches only at an index inside the buffer: past the end the byte is `undefined`, which equals no tag |
| RespParser.ParsePrefix | app/parser.ts:80-106 | a state without the tag fails; a success stays in the buffer and consumes at least tag and CRLF |
| RespParser.ParsePrefixLine | app/parser.ts:80-106 | every header comes from a header line whose first CRLF ends it; the converter accepted its body; the state lands past the CRLF |
| RespParser.ParsePrefixAt | app/parser.ts:80-106 | a tag followed by a body and its first CRLF gives the converted body, or fails when the converter rejects it |
| RespParser.ParsePrefixUnterminated | app/parser.ts:89-92 | a tag with no CRLF after it fails |
| RespParser.ToNumberAccepts | app/parser.ts:110 | `Number` gives an integer for a header body exactly when the body is empty, a run of digits, or one sign followed by at least one digit; any other body is NaN |
| RespParser.Verbatim | app/parser.ts:114-117 | the simple-string converter accepts every body and returns it unchanged; unlike the number converters it never rejects |
| RespParser.ToLength | app/parser.ts:124-125 | a length or count is the number of the body when that is a number and not negative, and nothing otherwise |
| RespParser.ParseNumber | app/parser.ts:108-112 | a success advances within the buffer and is a Number |
| RespParser.NumberSpec | app/parser.ts:108-112 | given a `:` header line, the result is the converted body and the state past the line, or failure when the body is not a number |
| RespParser.NumberHeader | app/parser.ts:108-112 | every decoded number comes from a `:` line whose body converts to it |
| RespParser.ParseSimpleString | app/parser.ts:114-117 | a success advances within the buffer and is a SimpleString |
| RespParser.SimpleStringSpec | app/parser.ts:114-117 | given a `+` header line, the value is its body verbatim and the state is past the line |
| RespParser.SimpleStringHeader | app/parser.ts:114-117 | every decoded simple string is the body of its `+` line, with no CRLF in it |
| RespParser.ParseBulkString | app/parser.ts:119-164 | a success advances within the buffer and is a BulkString |
| RespParser.BulkPayload | app/parser.ts:138-163 | the payload succeeds exactly when CRLF follows `length` bytes; the value is those bytes and the index lands past the CRLF |
| RespParser.BulkStringRejectsBadLength | app/parser.ts:120-131 | a `$` line whose length is not a non-negative number fails |
| RespParser.BulkStringSpec | app/parser.ts:119-164 | after a `$` line declaring a length, the result is the payload rule just past the line |
| RespParser.BulkStringFollows | app/parser.ts:119-164 | a `$` line declaring \|s\| followed by `s` and CRLF decodes to `s` and ends past the CRLF |
| RespParser.BulkStringHeader | app/parser.ts:119-164 | every decoded bulk string had a header declaring exactly its length; exactly that many bytes plus two CRLFs were consumed |
| RespParser.ParseElements | app/parser.ts:183-190 | a run of `count` elements has exactly `count` items, stays in the buffer and never moves back; count 0 consumes nothing |
| RespParser.ParseArray | app/parser.ts:166-199 | a success advances within the buffer and is an Array |
| RespParser.ArraySpec | app/parser.ts:166-199 | after a `*` line, a bad count fails; otherwise the array is the `count` elements decoded from just after the line, and it fails when they do |
| RespParser.ElementFailureAborts | app/parser.ts:183-187 | if one element cannot be decoded, the whole array fails; no partial array is returned |
| RespParser.FailureStep | app/parser.ts:183-187 | the inductive step of ElementFailureAborts |
| RespParser.ElementsStep | app/parser.ts:183-190 | proof step: one turn of the loop: decode one element, then the rest from where it ended |
| RespParser.ElementsCons | app/parser.ts:183-190 | proof step: a value followed by a run of values from where it ended is a run one longer |
| RespParser.ParseArrayLoop | app/parser.ts:166-199 | the `for` loop that pushes elements and threads the state returns exactly ParseArray |
| RespParser.ParseWithState | app/parser.ts:201-214 | a success advances within the same buffer; its tag is the byte at the index; a non-tag byte or an index outside the buffer fails |
| RespParser.Dispatch | app/parser.ts:201-214 | proof step: a state whose byte is a tag is handed to that tag's decoder |
| RespParser.Parse | app/parser.ts:216-221 | decodes from index 0 and keeps only the value, whose tag is the first byte |
| RespEncoding.DecimalDigitsAreDigits | app/parser.ts:110 | the decimal spelling of a natural number is a non-empty run of digits |
| RespEncoding.DecimalNoCrlf | app/parser.ts:89 | a decimal spelling holds no CRLF, so it ends at the header's CRLF |
| RespEncoding.DigitsRoundTrip | app/parser.ts:110 | reading back the digits of `n` gives `n` |
| RespEncoding.NumberRoundTrip | app/parser.ts:110-111 | ToNumber, the `Number` conversion, reads back every integer's decimal spelling, sign included |
| RespEncoding.LengthRoundTrip | app/parser.ts:124-125 | the length conversion reads back every natural number's decimal spelling |
| RespEncoding.HeaderAt | app/parser.ts:80-106 | a tag, a body without CRLF and CRLF form a header line whose body is that body |
| RespEncoding.NumberAt | app/parser.ts:108-112 | a `:` line whose body converts to `n` decodes to Number(n) and ends past the line |
| RespEncoding.SimpleStringAt | app/parser.ts:114-117 | a `+` line decodes to its body and ends past the line |
| RespEncoding.PayloadAt | app/parser.ts:142-151 | a payload followed by CRLF is read back verbatim, with CRLF after it |
| RespEncoding.BulkStringAt | app/parser.ts:119-164 | a `$` line declaring \|s\| followed by `s` and CRLF decodes to `s` and ends after the final CRLF |
| RespEncoding.BulkRuleFrom | app/parser.ts:119-164 | the bulk-string rule at an index of a buffer, ending at the given index |
| RespEncoding.BulkRuleAt | app/parser.ts:119-164 | the bulk-string rule on the bytes of BulkStringAt |
| RespEncoding.ArrayAt | app/parser.ts:166-199 | a `*` line declaring a count, followed by that many values decoding in turn, decodes to the array of them |
| RespEncoding.ArrayRuleAt | app/parser.ts:166-199 | the array rule on the bytes of ArrayAt |
| RespEncoding.RoundTrip | app/parser.ts:201-214 | every well-formed value decodes from its encoding at any index and ends exactly after it, whatever follows |
| RespEncoding.RoundTripTo | app/parser.ts:201-214 | the same, with the end index named |
| RespEncoding.NumberRoundTripAt | app/parser.ts:108-112 | every integer decodes from its encoding |
| RespEncoding.SimpleStringRoundTripAt | app/parser.ts:114-117 | every simple string without CRLF decodes from its encoding |
| RespEncoding.BulkStringRoundTripAt | app/parser.ts:119-164 | every byte string, CRLF included, decodes from its bulk encoding |
| RespEncoding.ArrayRoundTripAt | app/parser.ts:166-199 | every array of well-formed values decodes from its encoding |
| RespEncoding.SplitArray | app/parser.ts:166-199 | an array's encoding is its header line followed by its elements' encodings |
| RespEncoding.RoundTripAll | app/parser.ts:183-190 | concatenated encodings decode one after another, each from where the previous one ended |
| RespEncoding.SplitEncodings | app/parser.ts:183-190 | concatenated encodings split into the first encoding and the rest |
| RespEncoding.ElementsConsAt | app/parser.ts:183-190 | consecutive decoding at indices of one buffer |
| RespEncoding.ParseRoundTrip | app/parser.ts:216-221 | `parse` of an encoding, followed by any bytes, returns the value |
| RespExamples.NumberExample | app/parser.spec.ts:7-14 | `:123\r\n` decodes to 123 and ends at 6 |
| RespExamples.SimpleStringExample | app/parser.spec.ts:16-26 | `+Hello, World!\r\n` decodes to `Hello, World!` and ends at 16 |
| RespExamples.BulkStringExample | app/parser.spec.ts:28-38 | `$5\r\nHello\r\n` decodes to `Hello` and ends at 11 |
| RespExamples.EmptyBulkStringExample | app/parser.spec.ts:40-47 | `$0\r\n\r\n` decodes to the empty string and ends at 6 |
| RespExamples.EmptyArrayExample | app/parser.spec.ts:49-56 | `*0\r\n` decodes to the empty array and ends at 4 |
| RespExamples.SingleElementArrayExample | app/parser.spec.ts:58-71 | `*1\r\n:123\r\n` decodes to `[123]` and ends at 10 |
| RespExamples.MultipleElementArrayExample | app/parser.spec.ts:73-90 | the three-element array decodes to 123, `Hello` and `World` and ends at 29 |
| RespExamples.ThreeElementsIn | app/parser.spec.ts:73-90 | the three elements of that array decode in turn, ending at 29 |
| RespExamples.NestedArrayExample | app/parser.spec.ts:92-111 | `*2\r\n*1\r\n:123\r\n+Hello\r\n` decodes to `[[123], Hello]` and ends at 22 |
| RespExamples.ParseNestedExample | app/parser.ts:216-221 | `parse` of the nested buffer returns only the nested value |
| RespExamples.ConsecutiveValuesExample | app/parser.spec.ts:152-175 | feeding each returned state back in decodes the next value, ending at 6, 14 and 25 |
| RespExamples.EmptyNumberExample | app/parser.ts:108-112 | `:\r\n` decodes to the number 0 (`Number("")` is 0) and ends at 3 |
| RespExamples.InvalidInputExample | app/parser.spec.ts:113-116 | `invalid` is rejected |
| RespExamples.InvalidNumberExample | app/parser.spec.ts:118-121 | `:abc\r\n` is rejected |
| RespExamples.NegativeBulkLengthExample | app/parser.spec.ts:123-129 | `$-1\r\nHello\r\n` is rejected |
| RespExamples.WrongBulkLengthExample | app/parser.spec.ts:131-137 | `$5\r\nHello World\r\n` is rejected |
| RespExamples.NegativeArrayCountExample | app/parser.spec.ts:139-142 | `*-1\r\n` is rejected |
| RespExamples.InvalidElementExample | app/parser.spec.ts:144-150 | `*1\r\n:abc\r\n` is rejected as a whole |
| RespExamples.NumberIn | app/parser.spec.ts:8 | `:123\r\n` anywhere in a buffer decodes to 123 |
| RespExamples.HelloIn | app/parser.spec.ts:75 | `+Hello\r\n` anywhere in a buffer decodes to `Hello` |
| RespExamples.BulkIn | app/parser.spec.ts:30 | `$5\r\n`, five bytes and CRLF anywhere in a buffer decode to those bytes |
| RespExamples.SingletonIn | app/parser.spec.ts:60 | `*1\r\n:123\r\n` anywhere in a buffer decodes to `[123]` |
| RespExamples.AbcIn | app/parser.spec.ts:119 | `:abc\r\n` anywhere in a buffer is rejected |
| CliArgsParser.StripDashes | app/cli-args.ts:15 | one leading `--` is removed when present; otherwise the key is unchanged |
| CliArgsParser.LeadingDigits | app/cli-args.ts:20 | the length of the run of digits that starts the text |
| CliArgsParser.ParseIntNaN | app/cli-args.ts:20-21 | `parseInt(value, 10)` is NaN (None) exactly when the character after the optional sign is missing or is not a decimal digit |
| CliArgsParser.ParseIntNegative | app/cli-args.ts:20 | `-` then digits then text that does not continue them reads as the negated digits |
| CliArgsParser.ParseIntPositive | app/cli-args.ts:20 | `+` then digits then text that does not continue them reads as the digits |
| CliArgsParser.ParseIntStopsAtNonDigit | app/cli-args.ts:20 | digits followed by a non-digit parse as the digits alone |
| CliArgsParser.Apply | app/cli-args.ts:18-31 | one pair fails exactly for key `port` with a non-numeric value, with the source's message |
| CliArgsParser.ParseCliArgs | app/cli-args.ts:7-35 | the loop over pairs returns the left fold of the pairs over the defaults, or the port error |
| CliArgsParser.ConfigureFromSuffix | app/cli-args.ts:14-32 | the loop's remaining work from index `i` is the fold of the pairs from `i` |
| CliArgsParser.LastValueIsLast | app/cli-args.ts:14-32 | the value kept for a key is the one of its last pair, and absent when no pair has the key |
| CliArgsParser.ConfigureResult | app/cli-args.ts:7-35 | the result fails exactly when some `port` value is not numeric; otherwise each field is the last value given for its key or its default |
| CliArgsParser.ConfigureLast | app/cli-args.ts:14-32 | appending a pair applies it to the result so far |
| CliArgsParser.PortsNumericLast | app/cli-args.ts:19-23 | appending a pair keeps all ports numeric unless it is a non-numeric port |
| CliArgsParser.LastValueLast | app/cli-args.ts:14-32 | proof step: a later pair with the key replaces the kept value; other keys keep theirs |
| CliArgsParser.ResolvedLast | app/cli-args.ts:18-31 | applying one more pair to the resolved record gives the record resolved with that pair |
| CliArgsParser.ConfigureAppend | app/cli-args.ts:14-32 | parsing two argument lists in turn is parsing their concatenation |
| CliArgsParser.UnknownKeyIgnored | app/cli-args.ts:18-31 | a pair with any other key changes nothing, wherever it stands |
| Database.MakeValue | app/database.ts:9-17 | the record holds exactly the given data, creation time and expiry |
| Database.MakeValueDefault | app/database.ts:12 | an omitted expiry is None |
| Database.Store.constructor | app/database.ts:19 | a new table holds no key |
| Database.Store.GetByKey | app/database.ts:21 | the stored value exactly when the key is present, and None (`undefined`) for a key never set; reading changes nothing |
| Database.Store.SetByKey | app/database.ts:23-25 | the key now maps to the value, replacing any earlier one; every other key reads as before |

## Left out

- `app/main.ts` (the TCP server and its socket callback) is not part of this model: it is I/O plumbing and does not call the decoder.
- RespParser.ToNumber: models JavaScript `Number(str)` only on signed decimal integers and the empty body (which is 0, as in JavaScript), as exact unbounded integers. Not modelled:
  - bodies the source accepts and the model treats as NaN: fractions, exponents, `0x`/`0b`/`0o` prefixes, `Infinity`, surrounding whitespace, and whitespace-only bodies (`Number(" ")` is 0);
  - 64-bit floating-point rounding: `:9007199254740993\r\n` decodes to 9007199254740992 in the source, but to the exact value here;
  - overflow: a run of about 309 or more digits is `Infinity` in the source, returned as a number;
  - negative zero: `:-0\r\n` decodes to `-0` in the source and to 0 here.
- RespParser.ToLength: a fractional length or count such as `1.5` (not an integer, but not NaN and not negative) is not modelled; see ToNumber.
- UTF-8 decoding of simple and bulk strings (`toString("utf8", …)`) is left out: the model keeps the raw bytes. A bulk length therefore counts bytes, as in the source, but the model's string is not the JavaScript string.
- CliArgsParser.ParseInt: `parseInt(value, 10)` is modelled as an optional sign followed by the longest run of ASCII digits. Leading whitespace skipping is not modelled.
- CliArgsParser.ParseCliArgs: requires an even number of arguments. With an odd count the source reads `undefined` as the last value, which the model does not represent.
- CliArgsParser.ParseCliArgs: 64-bit floating-point ports (precision loss on very long digit runs) and the JavaScript `-0` are not modelled; ports are unbounded integers.
- Stack exhaustion is not modelled: `parseArray` and `parseWithState` call each other (app/parser.ts:184 and 210), so a deeply nested array makes the source throw a `RangeError`, while the model decodes it.
- The thrown `Error` is a `Failure` carrying its message; no stack or exception object is modelled.
- Database.Store: the module-level `database` Map is a field of a `Store` object, so a caller holds the table explicitly; Map insertion order is not modelled.
- Database.Value: `px` is stored but never interpreted (expiry and the commands that would read it are not in this code).
- The `@mobily/ts-belt` `O.Option` and `pipe` helpers are the `Option` datatype and plain function composition.
- The test runner of `app/parser.spec.ts` is not modelled; its cases are lemmas about the decoder.
- No concurrency: the table and the parser are used by one caller at a time.
