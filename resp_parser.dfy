/**
 * The RESP2 decoder of app/parser.ts.
 *
 * A parse state is an input buffer and an index into it. Every decoder takes a
 * state and returns either nothing (any malformed, truncated or unknown input)
 * or a decoded value together with a fresh state whose index is advanced past
 * the bytes the value occupied. The buffer itself is never changed.
 */
module RespParser {
  import opened Wrappers

  newtype byte = b: int | 0 <= b < 256

  // Type tags (the `DataType` table)
  const NumberTag: byte := 0x3a        // ':'
  const SimpleStringTag: byte := 0x2b  // '+'
  const BulkStringTag: byte := 0x24    // '$'
  const ArrayTag: byte := 0x2a         // '*'

  const CR: byte := 0x0d
  const LF: byte := 0x0a
  const CRLF: seq<byte> := [CR, LF]

  const Plus: byte := 0x2b
  const Minus: byte := 0x2d
  const Zero: byte := 0x30

  predicate IsTag(b: byte) {
    b == NumberTag || b == SimpleStringTag || b == BulkStringTag || b == ArrayTag
  }

  /** A decoded RESP value. Strings are kept as the raw bytes of the buffer. */
  datatype Data =
    | Number(n: int)
    | SimpleString(s: seq<byte>)
    | BulkString(s: seq<byte>)
    | Array(elements: seq<Data>)
  {
    /** The `type` field: the tag byte that introduces the value on the wire. */
    function Tag(): (t: byte)
      ensures IsTag(t)
    {
      match this
      case Number(_) => NumberTag
      case SimpleString(_) => SimpleStringTag
      case BulkString(_) => BulkStringTag
      case Array(_) => ArrayTag
    }
  }

  datatype ParseState = ParseState(input: seq<byte>, index: int)

  datatype Parsed = Parsed(data: Data, state: ParseState)

  type ParseResult = Option<Parsed>

  /** A decoder result that, when present, keeps the buffer and moves the
      index forward without leaving the buffer. */
  predicate Advances(state: ParseState, r: ParseResult) {
    r.Some? ==>
      && r.value.state.input == state.input
      && state.index < r.value.state.index <= |state.input|
  }

  // ---------------------------------------------------------------------------
  // Delimiter scanning

  /** The bytes of `input` starting at `i` are exactly `d`. */
  predicate MatchesAt(input: seq<byte>, i: int, d: seq<byte>) {
    0 <= i && i + |d| <= |input| && input[i..i + |d|] == d
  }

  /** A CRLF starts at `i`: the two bytes there are CR and LF. */
  predicate CrlfAt(input: seq<byte>, i: int) {
    0 <= i && i + 2 <= |input| && input[i] == CR && input[i + 1] == LF
  }

  /** Comparing the two bytes at `i` with CRLF is matching CRLF there. */
  lemma CrlfAtMatches(input: seq<byte>, i: int)
    ensures CrlfAt(input, i) <==> MatchesAt(input, i, CRLF)
  {
    if MatchesAt(input, i, CRLF) {
      assert input[i..i + 2][0] == CR && input[i..i + 2][1] == LF;
    }
  }

  /** `at` is the first position at or after `from` where `d` occurs. */
  predicate FirstMatchAt(input: seq<byte>, from: int, at: int, d: seq<byte>) {
    && from <= at
    && MatchesAt(input, at, d)
    && forall i :: from <= i < at ==> !MatchesAt(input, i, d)
  }

  /** Specification of `findDelimiter`: the position of the first occurrence
      of `d` at or after `from`, or -1 (FirstDelimiterFinds states which). */
  function FirstDelimiter(input: seq<byte>, d: seq<byte>, from: int): (r: int)
    requires 0 <= from
    ensures r == -1 || (from <= r && r + |d| <= |input|)
    decreases |input| - from
  {
    if from + |d| > |input| then -1
    else if input[from..from + |d|] == d then from
    else FirstDelimiter(input, d, from + 1)
  }

  /** The scan returns -1 exactly when `d` does not occur at or after `from`
      (in particular when fewer than |d| bytes remain), and otherwise the
      first occurrence. */
  lemma {:induction false} FirstDelimiterFinds(input: seq<byte>, d: seq<byte>, from: int)
    requires 0 <= from
    ensures var r := FirstDelimiter(input, d, from);
      && (r == -1 <==> forall i :: from <= i ==> !MatchesAt(input, i, d))
      && (r != -1 ==> FirstMatchAt(input, from, r, d))
    decreases |input| - from
  {
    if from + |d| <= |input| {
      if input[from..from + |d|] == d {
        assert MatchesAt(input, from, d);
      } else {
        assert !MatchesAt(input, from, d);
        FirstDelimiterFinds(input, d, from + 1);
      }
    }
  }

  /** Conversely, the first occurrence is what the scan finds. */
  lemma {:induction false} FirstDelimiterAt(input: seq<byte>, d: seq<byte>, from: int, at: int)
    requires 0 <= from
    requires FirstMatchAt(input, from, at, d)
    ensures FirstDelimiter(input, d, from) == at
    decreases at - from
  {
    if from < at {
      assert !MatchesAt(input, from, d);
      FirstDelimiterAt(input, d, from + 1, at);
    }
  }

  /** `at` is the first position at or after `from` where a CRLF starts. */
  predicate FirstCrlfAt(input: seq<byte>, from: int, at: int) {
    && from <= at
    && CrlfAt(input, at)
    && forall i :: from <= i < at ==> !CrlfAt(input, i)
  }

  /** For CRLF, the two ways of saying "first occurrence" agree. */
  lemma FirstCrlfMatch(input: seq<byte>, from: int, at: int)
    ensures FirstMatchAt(input, from, at, CRLF) <==> FirstCrlfAt(input, from, at)
  {
    forall i {
      CrlfAtMatches(input, i);
    }
  }

  /** `findDelimiter`: the `for` loop that advances `i` over the buffer. */
  method FindDelimiter(state: ParseState, delimiter: seq<byte>) returns (r: int)
    requires 0 <= state.index
    ensures r == FirstDelimiter(state.input, delimiter, state.index)
  {
    var i := state.index;
    while i < |state.input| - |delimiter| + 1
      invariant state.index <= i
      invariant FirstDelimiter(state.input, delimiter, i) == FirstDelimiter(state.input, delimiter, state.index)
      decreases |state.input| - i
    {
      if state.input[i..i + |delimiter|] == delimiter {
        return i;
      }
      i := i + 1;
    }
    return -1;
  }

  /** The text read by `readUntilDelimiter` and the state just past the delimiter. */
  datatype Line = Line(value: seq<byte>, newState: ParseState)

  /** `readUntilDelimiter`: the bytes from the index up to the first
      delimiter, and the state just past that delimiter. */
  function ReadUntilDelimiter(state: ParseState, delimiter: seq<byte>): (r: Option<Line>)
    requires 0 <= state.index
    ensures r.Some? ==>
      && r.value.newState == ParseState(state.input, state.index + |r.value.value| + |delimiter|)
      && r.value.newState.index <= |state.input|
  {
    var endIndex := FirstDelimiter(state.input, delimiter, state.index);
    if endIndex == -1 then None
    else Some(Line(state.input[state.index..endIndex], ParseState(state.input, endIndex + |delimiter|)))
  }

  /** Reading fails exactly when no delimiter follows the index; otherwise the
      text is everything before the first delimiter. */
  lemma ReadUntilDelimiterFinds(state: ParseState, delimiter: seq<byte>)
    requires 0 <= state.index
    ensures var r := ReadUntilDelimiter(state, delimiter);
      && (r.None? <==> forall i :: state.index <= i ==> !MatchesAt(state.input, i, delimiter))
      && (r.Some? ==>
            var end := state.index + |r.value.value|;
            && FirstMatchAt(state.input, state.index, end, delimiter)
            && state.input[state.index..end] == r.value.value)
  {
    FirstDelimiterFinds(state.input, delimiter, state.index);
  }

  // ---------------------------------------------------------------------------
  // Header lines: a tag byte, a body, CRLF

  /** `hasPrefix`: the byte at the index is `prefix` (an index outside the
      buffer reads as `undefined`, which matches no tag). */
  predicate HasPrefix(state: ParseState, prefix: byte)
    ensures HasPrefix(state, prefix) ==> state.index < |state.input|
  {
    0 <= state.index < |state.input| && state.input[state.index] == prefix
  }

  /** The state starts with the tag `prefix` and the first CRLF after the tag
      starts at `end`. */
  predicate HeaderLine(state: ParseState, prefix: byte, end: int) {
    HasPrefix(state, prefix) && FirstCrlfAt(state.input, state.index + 1, end)
  }

  /** A header value together with the state just past its line. */
  datatype Prefixed<T> = Prefixed(value: T, state: ParseState)

  /** `parsePrefix`: check the tag, read the body up to the first CRLF and
      convert it; any of the three steps can fail. */
  function ParsePrefix<T>(state: ParseState, prefix: byte, convert: seq<byte> -> Option<T>): (r: Option<Prefixed<T>>)
    ensures !HasPrefix(state, prefix) ==> r.None?
    ensures r.Some? ==>
      && r.value.state.input == state.input
      && state.index + 3 <= r.value.state.index <= |state.input|
  {
    if !HasPrefix(state, prefix) then None
    else
      match ReadUntilDelimiter(ParseState(state.input, state.index + 1), CRLF)
      case None => None
      case Some(line) =>
        match convert(line.value)
        case None => None
        case Some(v) => Some(Prefixed(v, line.newState))
  }

  /** Every header comes from a header line: the tag, a body that the
      converter accepts, the first CRLF after it, and the state just past it. */
  lemma ParsePrefixLine<T>(state: ParseState, prefix: byte, convert: seq<byte> -> Option<T>)
    requires ParsePrefix(state, prefix, convert).Some?
    ensures var r := ParsePrefix(state, prefix, convert).value;
      var end := r.state.index - 2;
      && HeaderLine(state, prefix, end)
      && convert(state.input[state.index + 1..end]) == Some(r.value)
      && r.state == ParseState(state.input, end + 2)
  {
    var line := ReadUntilDelimiter(ParseState(state.input, state.index + 1), CRLF).value;
    ReadUntilDelimiterFinds(ParseState(state.input, state.index + 1), CRLF);
    FirstCrlfMatch(state.input, state.index + 1, state.index + 1 + |line.value|);
  }

  /** The converse: a tag, a body whose first CRLF ends it and a body the
      converter accepts always give that header. */
  lemma ParsePrefixAt<T>(state: ParseState, prefix: byte, convert: seq<byte> -> Option<T>, end: int)
    requires HeaderLine(state, prefix, end)
    ensures var body := state.input[state.index + 1..end];
      ParsePrefix(state, prefix, convert) ==
        match convert(body)
        case None => None
        case Some(v) => Some(Prefixed(v, ParseState(state.input, end + 2)))
  {
    FirstCrlfMatch(state.input, state.index + 1, end);
    FirstDelimiterAt(state.input, CRLF, state.index + 1, end);
  }

  /** A tag with no CRLF anywhere after it is an incomplete line: it fails. */
  lemma ParsePrefixUnterminated<T>(state: ParseState, prefix: byte, convert: seq<byte> -> Option<T>)
    requires 0 <= state.index
    requires forall i :: state.index + 1 <= i ==> !CrlfAt(state.input, i)
    ensures ParsePrefix(state, prefix, convert).None?
  {
    forall i {
      CrlfAtMatches(state.input, i);
    }
    ReadUntilDelimiterFinds(ParseState(state.input, state.index + 1), CRLF);
  }

  // ---------------------------------------------------------------------------
  // Converting header bodies (JavaScript `Number(str)`)

  predicate IsDigit(b: byte) {
    Zero <= b <= Zero + 9
  }

  /** The value of `s[lo..hi]` read as decimal digits, most significant
      first, or nothing when that range holds a byte that is not a digit. */
  function Digits(s: seq<byte>, lo: nat, hi: nat): Option<nat>
    requires lo <= hi <= |s|
    decreases hi - lo
  {
    if hi == lo then Some(0)
    else if !IsDigit(s[hi - 1]) then None
    else
      match Digits(s, lo, hi - 1)
      case None => None
      case Some(v) => Some(v * 10 + (s[hi - 1] - Zero) as int)
  }

  /** `Number(str)` restricted to signed decimal integers: the empty body is 0,
      an optional sign followed by at least one digit is that integer, and
      anything else is NaN. */
  function ToNumber(body: seq<byte>): Option<int> {
    if body == [] then Some(0)
    else if |body| > 1 && body[0] == Minus then
      match Digits(body, 1, |body|)
      case None => None
      case Some(v) => Some(-(v as int))
    else if |body| > 1 && body[0] == Plus then
      match Digits(body, 1, |body|)
      case None => None
      case Some(v) => Some(v)
    else
      match Digits(body, 0, |body|)
      case None => None
      case Some(v) => Some(v)
  }

  /** The bodies `Number` reads as an integer here: the empty body, a run of
      digits, or one sign followed by at least one digit. */
  predicate NumberSyntax(body: seq<byte>) {
    || (forall k :: 0 <= k < |body| ==> IsDigit(body[k]))
    || (&& |body| > 1
        && (body[0] == Minus || body[0] == Plus)
        && forall k :: 1 <= k < |body| ==> IsDigit(body[k]))
  }

  /** A range converts exactly when every byte in it is a digit. */
  lemma {:induction false} DigitsDefined(s: seq<byte>, lo: nat, hi: nat)
    requires lo <= hi <= |s|
    ensures Digits(s, lo, hi).Some? <==> forall k :: lo <= k < hi ==> IsDigit(s[k])
    decreases hi - lo
  {
    if hi > lo {
      DigitsDefined(s, lo, hi - 1);
    }
  }

  /** ToNumber converts a body exactly when it has the integer syntax; every
      other body (a lone sign, a second sign, any other byte) is NaN. */
  lemma {:induction false} ToNumberAccepts(body: seq<byte>)
    ensures ToNumber(body).Some? <==> NumberSyntax(body)
  {
    DigitsDefined(body, 0, |body|);
    if |body| > 1 {
      DigitsDefined(body, 1, |body|);
    }
  }

  /** The converter used for bulk-string lengths and array counts: NaN and
      negative numbers are rejected. */
  function ToLength(body: seq<byte>): (r: Option<nat>)
    ensures r.Some? <==> ToNumber(body).Some? && ToNumber(body).value >= 0
    ensures r.Some? ==> r.value == ToNumber(body).value
  {
    match ToNumber(body)
    case None => None
    case Some(n) => if n < 0 then None else Some(n)
  }

  /** The converter of simple strings: every body is accepted, unchanged. */
  function Verbatim(body: seq<byte>): (r: Option<seq<byte>>)
    ensures r.Some? && r.value == body
  {
    Some(body)
  }

  // ---------------------------------------------------------------------------
  // The four decoders

  /** `parseNumber`: `:` + body + CRLF, the body converted by ToNumber. */
  function ParseNumber(state: ParseState): (r: ParseResult)
    ensures Advances(state, r)
    ensures r.Some? ==> r.value.data.Number?
  {
    match ParsePrefix(state, NumberTag, ToNumber)
    case None => None
    case Some(Prefixed(n, next)) => Some(Parsed(Number(n), next))
  }

  /** The number rule, given a `:` header line ending at `end`: the value is
      the converted body, and a body that is not a number (such as `abc`)
      fails. */
  lemma NumberSpec(state: ParseState, end: int)
    requires HeaderLine(state, NumberTag, end)
    ensures ParseNumber(state) ==
      match ToNumber(state.input[state.index + 1..end])
      case None => None
      case Some(n) => Some(Parsed(Number(n), ParseState(state.input, end + 2)))
  {
    ParsePrefixAt(state, NumberTag, ToNumber, end);
  }

  /** Every decoded number is the converted body of a `:` header line, and
      the state lands just past that line. */
  lemma NumberHeader(state: ParseState)
    requires ParseNumber(state).Some?
    ensures var r := ParseNumber(state).value;
      var end := r.state.index - 2;
      && HeaderLine(state, NumberTag, end)
      && ToNumber(state.input[state.index + 1..end]) == Some(r.data.n)
  {
    ParsePrefixLine(state, NumberTag, ToNumber);
  }

  /** `parseSimpleString`: `+` + body + CRLF, the body taken verbatim. */
  function ParseSimpleString(state: ParseState): (r: ParseResult)
    ensures Advances(state, r)
    ensures r.Some? ==> r.value.data.SimpleString?
  {
    match ParsePrefix(state, SimpleStringTag, Verbatim)
    case None => None
    case Some(Prefixed(s, next)) => Some(Parsed(SimpleString(s), next))
  }

  /** The simple-string rule, given a `+` header line ending at `end`: the
      body is the value, with no further check. */
  lemma SimpleStringSpec(state: ParseState, end: int)
    requires HeaderLine(state, SimpleStringTag, end)
    ensures ParseSimpleString(state) ==
      Some(Parsed(SimpleString(state.input[state.index + 1..end]), ParseState(state.input, end + 2)))
  {
    ParsePrefixAt(state, SimpleStringTag, Verbatim, end);
  }

  /** Every decoded simple string is everything up to the first CRLF after
      its `+` (so it never holds a CRLF), and the state lands just past it. */
  lemma SimpleStringHeader(state: ParseState)
    requires ParseSimpleString(state).Some?
    ensures var r := ParseSimpleString(state).value;
      var end := state.index + 1 + |r.data.s|;
      && HeaderLine(state, SimpleStringTag, end)
      && state.input[state.index + 1..end] == r.data.s
      && r.state == ParseState(state.input, end + 2)
  {
    ParsePrefixLine(state, SimpleStringTag, Verbatim);
  }

  /** `parseBulkString`: `$` + length + CRLF, then the payload. */
  function ParseBulkString(state: ParseState): (r: ParseResult)
    ensures Advances(state, r)
    ensures r.Some? ==> r.value.data.BulkString?
  {
    match ParsePrefix(state, BulkStringTag, ToLength)
    case None => None
    case Some(Prefixed(length, header)) => BulkPayload(header, length)
  }

  /** The payload of a bulk string: exactly `length` bytes from the index,
      which must be followed by CRLF; the index lands past that CRLF. */
  function BulkPayload(state: ParseState, length: nat): (r: ParseResult)
    requires 0 <= state.index
    ensures r.Some? <==> CrlfAt(state.input, state.index + length)
    ensures r.Some? ==>
      r.value == Parsed(BulkString(state.input[state.index..state.index + length]), ParseState(state.input, state.index + length + 2))
  {
    var input := state.input;
    if state.index + length + |CRLF| > |input| then None
    else
      var content := input[state.index..state.index + length];
      var endIndex := state.index + length;
      if !CrlfAt(input, endIndex) then None
      else Some(Parsed(BulkString(content), ParseState(input, endIndex + |CRLF|)))
  }

  /** A `$` header line whose body is not a non-negative number (NaN, or a
      negative length such as -1) fails the decode. */
  lemma BulkStringRejectsBadLength(state: ParseState, end: int)
    requires HeaderLine(state, BulkStringTag, end)
    requires ToLength(state.input[state.index + 1..end]).None?
    ensures ParseBulkString(state).None?
  {
    ParsePrefixAt(state, BulkStringTag, ToLength, end);
  }

  /** The bulk-string rule, given a `$` header line ending at `end` that
      declares `length`: the rest is the payload rule, applied just past the
      header line. */
  lemma BulkStringSpec(state: ParseState, end: int, length: nat)
    requires HeaderLine(state, BulkStringTag, end)
    requires ToLength(state.input[state.index + 1..end]) == Some(length)
    ensures ParseBulkString(state) == BulkPayload(ParseState(state.input, end + 2), length)
  {
    ParsePrefixAt(state, BulkStringTag, ToLength, end);
  }

  /** A `$` header line declaring |s|, followed by `s` and CRLF, decodes to
      `s`, and the index lands past the closing CRLF. */
  lemma BulkStringFollows(state: ParseState, end: int, s: seq<byte>)
    requires HeaderLine(state, BulkStringTag, end)
    requires ToLength(state.input[state.index + 1..end]) == Some(|s|)
    requires CrlfAt(state.input, end + 2 + |s|) && state.input[end + 2..end + 2 + |s|] == s
    ensures ParseBulkString(state) == Some(Parsed(BulkString(s), ParseState(state.input, end + 4 + |s|)))
  {
    var payload := ParseState(state.input, end + 2);
    assert BulkPayload(payload, |s|) == Some(Parsed(BulkString(s), ParseState(state.input, end + 4 + |s|)));
    BulkStringSpec(state, end, |s|);
  }

  /** Every decoded bulk string has a header line declaring exactly its
      length, and the decode consumed that many bytes plus two CRLFs. */
  lemma BulkStringHeader(state: ParseState)
    requires ParseBulkString(state).Some?
    ensures var r := ParseBulkString(state).value;
      var end := r.state.index - |r.data.s| - 4;
      && HeaderLine(state, BulkStringTag, end)
      && ToLength(state.input[state.index + 1..end]) == Some(|r.data.s|)
  {
    var header := ParsePrefix(state, BulkStringTag, ToLength).value;
    var r := ParseBulkString(state).value;
    assert r.state.index - |r.data.s| - 4 == header.state.index - 2 && |r.data.s| == header.value by {
      assert ParseBulkString(state) == BulkPayload(header.state, header.value);
    }
    ParsePrefixLine(state, BulkStringTag, ToLength);
  }

  /** A run of decoded array elements and the state after the last one. */
  datatype Elements = Elements(items: seq<Data>, state: ParseState)

  /** The elements of an array: `count` values decoded one after another, each
      from the state the previous one ended in. Any failing element fails the
      whole run. */
  function ParseElements(state: ParseState, count: nat): (r: Option<Elements>)
    requires 0 <= state.index <= |state.input|
    ensures r.Some? ==>
      && |r.value.items| == count
      && r.value.state.input == state.input
      && state.index <= r.value.state.index <= |state.input|
    ensures count == 0 ==> r == Some(Elements([], state))
    decreases |state.input| - state.index, 3
  {
    if count == 0 then Some(Elements([], state))
    else
      match ParseWithState(state)
      case None => None
      case Some(Parsed(first, next)) =>
        match ParseElements(next, count - 1)
        case None => None
        case Some(Elements(rest, end)) => Some(Elements([first] + rest, end))
  }

  /** `parseArray`: `*` + count + CRLF, then `count` elements. */
  function ParseArray(state: ParseState): (r: ParseResult)
    ensures Advances(state, r)
    ensures r.Some? ==> r.value.data.Array?
    decreases |state.input| - state.index, 1
  {
    match ParsePrefix(state, ArrayTag, ToLength)
    case None => None
    case Some(Prefixed(count, header)) =>
      match ParseElements(header, count)
      case None => None
      case Some(Elements(items, end)) => Some(Parsed(Array(items), end))
  }

  /** `parseWithState`: dispatch on the byte at the index. A byte that is no
      tag, or an index outside the buffer, fails; a success carries the tag
      it was introduced by and advances within the buffer. */
  function ParseWithState(state: ParseState): (r: ParseResult)
    ensures Advances(state, r)
    ensures r.Some? ==> 0 <= state.index < |state.input| && r.value.data.Tag() == state.input[state.index]
    ensures !(0 <= state.index < |state.input| && IsTag(state.input[state.index])) ==> r.None?
    decreases |state.input| - state.index, 2
  {
    if !(0 <= state.index < |state.input|) then None
    else
      var b := state.input[state.index];
      if b == NumberTag then ParseNumber(state)
      else if b == SimpleStringTag then ParseSimpleString(state)
      else if b == BulkStringTag then ParseBulkString(state)
      else if b == ArrayTag then ParseArray(state)
      else None
  }

  /** `parse`: decode one value from the start of a buffer, dropping the state. */
  function Parse(input: seq<byte>): (r: Option<Data>)
    ensures r.Some? ==> |input| > 0 && r.value.Tag() == input[0]
    ensures r.Some? <==> ParseWithState(ParseState(input, 0)).Some?
  {
    match ParseWithState(ParseState(input, 0))
    case None => None
    case Some(result) => Some(result.data)
  }

  // ---------------------------------------------------------------------------
  // Properties of the array rule

  /** The array rule, given a `*` header line ending at `end`: a count that is
      not a non-negative number (such as -1) fails; otherwise the array is
      exactly the `count` elements decoded from just after the header, and it
      fails when they do. A count of 0 consumes the header only. */
  lemma ArraySpec(state: ParseState, end: int)
    requires HeaderLine(state, ArrayTag, end)
    ensures ParseArray(state) ==
      match ToLength(state.input[state.index + 1..end])
      case None => None
      case Some(count) =>
        match ParseElements(ParseState(state.input, end + 2), count)
        case None => None
        case Some(Elements(items, last)) => Some(Parsed(Array(items), last))
  {
    ParsePrefixAt(state, ArrayTag, ToLength, end);
  }

  /** If the first `k` elements decode, ending at `at`, but no value can be
      decoded at `at`, an array of more than `k` elements fails as a whole:
      no partial array is returned. */
  lemma {:induction false} ElementFailureAborts(state: ParseState, count: nat, k: nat, done: seq<Data>, at: ParseState)
    requires 0 <= state.index <= |state.input|
    requires k < count
    requires ParseElements(state, k) == Some(Elements(done, at))
    requires ParseWithState(at).None?
    ensures ParseElements(state, count).None?
    decreases k
  {
    if k == 0 {
      ElementsStep(state, count);
    } else {
      var first := ParseWithState(state);
      assert first.Some? by {
        ElementsStep(state, k);
      }
      FailureStep(state, count, k, done, at, first.value.data, first.value.state);
    }
  }

  /** The inductive step of ElementFailureAborts: the first element decodes,
      so the failure lies among the remaining ones. */
  lemma {:induction false} FailureStep(state: ParseState, count: nat, k: nat, done: seq<Data>, at: ParseState, first: Data, next: ParseState)
    requires 0 <= state.index <= |state.input|
    requires 0 < k < count
    requires ParseWithState(state) == Some(Parsed(first, next))
    requires ParseElements(state, k) == Some(Elements(done, at))
    requires ParseWithState(at).None?
    ensures ParseElements(state, count).None?
    decreases k, 0
  {
    RestOfRun(state, k, first, next, done, at);
    ElementFailureAborts(next, count - 1, k - 1, done[1..], at);
    RestFails(state, count, first, next);
  }

  /** A run of `k` values whose first value decodes: the other `k - 1`
      values are a run from where the first one ended. */
  lemma RestOfRun(state: ParseState, k: nat, first: Data, next: ParseState, done: seq<Data>, at: ParseState)
    requires 0 <= state.index <= |state.input| && k > 0
    requires ParseWithState(state) == Some(Parsed(first, next))
    requires ParseElements(state, k) == Some(Elements(done, at))
    ensures 0 <= next.index <= |next.input|
    ensures done != [] && ParseElements(next, k - 1) == Some(Elements(done[1..], at))
  {
    var tail := ParseElements(next, k - 1);
    assert tail.Some? && tail.value.state == at && [first] + tail.value.items == done by {
      ElementsStep(state, k);
    }
    assert tail.value.items == done[1..];
  }

  /** A run whose first value decodes fails when the rest of it fails. */
  lemma RestFails(state: ParseState, count: nat, first: Data, next: ParseState)
    requires 0 <= state.index <= |state.input| && count > 0
    requires ParseWithState(state) == Some(Parsed(first, next))
    requires ParseElements(next, count - 1).None?
    ensures ParseElements(state, count).None?
  {
    ElementsStep(state, count);
  }

  // ---------------------------------------------------------------------------
  // The loop of `parseArray`

  /** Prefix already-decoded elements to a run. */
  function Prepend(done: seq<Data>, r: Option<Elements>): Option<Elements> {
    match r
    case None => None
    case Some(Elements(rest, end)) => Some(Elements(done + rest, end))
  }

  /** One turn of the element loop: decode one element, then the rest. */
  lemma ElementsStep(state: ParseState, count: nat)
    requires 0 <= state.index <= |state.input| && count > 0
    ensures ParseElements(state, count) ==
      match ParseWithState(state)
      case None => None
      case Some(Parsed(first, next)) => Prepend([first], ParseElements(next, count - 1))
  {
  }

  /** Consecutive decoding: a value decoded at the state, followed by a run
      of `count - 1` values decoded from where it ended, is a run of `count`
      values. */
  lemma ElementsCons(state: ParseState, count: nat, first: Data, next: ParseState, rest: seq<Data>, last: ParseState)
    requires 0 <= state.index <= |state.input| && count > 0
    requires ParseWithState(state) == Some(Parsed(first, next))
    requires 0 <= next.index <= |next.input|
    requires ParseElements(next, count - 1) == Some(Elements(rest, last))
    ensures ParseElements(state, count) == Some(Elements([first] + rest, last))
  {
    ElementsStep(state, count);
  }

  /** The dispatcher hands a state to the decoder its leading tag names. */
  lemma Dispatch(state: ParseState, tag: byte)
    requires HasPrefix(state, tag) && IsTag(tag)
    ensures ParseWithState(state) ==
      if tag == NumberTag then ParseNumber(state)
      else if tag == SimpleStringTag then ParseSimpleString(state)
      else if tag == BulkStringTag then ParseBulkString(state)
      else ParseArray(state)
  {
  }

  lemma PrependNothing(r: Option<Elements>)
    ensures Prepend([], r) == r
  {
    if r.Some? {
      assert [] + r.value.items == r.value.items;
    }
  }

  lemma PrependTwice(a: seq<Data>, b: seq<Data>, r: Option<Elements>)
    ensures Prepend(a, Prepend(b, r)) == Prepend(a + b, r)
  {
    if r.Some? {
      assert a + (b + r.value.items) == (a + b) + r.value.items;
    }
  }

  /** `parseArray` as the source writes it: a `for` loop that decodes `count`
      elements, threading the state and pushing each element, and returns
      nothing as soon as one element fails. */
  method ParseArrayLoop(state: ParseState) returns (r: ParseResult)
    ensures r == ParseArray(state)
  {
    var header := ParsePrefix(state, ArrayTag, ToLength);
    if header.None? {
      return None;
    }
    var length := header.value.value;
    var current := header.value.state;
    var elements: seq<Data> := [];
    var i := 0;
    PrependNothing(ParseElements(current, length));
    while i < length
      invariant 0 <= i <= length
      invariant current.input == state.input && 0 <= current.index <= |current.input|
      invariant ParseElements(header.value.state, length) == Prepend(elements, ParseElements(current, length - i))
    {
      var result := ParseWithState(current);
      ElementsStep(current, length - i);
      if result.None? {
        return None;
      }
      PrependTwice(elements, [result.value.data], ParseElements(result.value.state, length - i - 1));
      elements := elements + [result.value.data];
      current := result.value.state;
      i := i + 1;
    }
    assert elements + [] == elements;
    return Some(Parsed(Array(elements), current));
  }
}
