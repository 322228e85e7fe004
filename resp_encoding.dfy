/**
 * The RESP2 wire format of the four value kinds the decoder accepts, written
 * as an encoder, and the proof that the decoder inverts it: a well-formed
 * value encoded anywhere in a buffer decodes back to itself, and the state
 * ends exactly after its bytes, whatever surrounds them.
 */
module RespEncoding {
  import opened Wrappers
  import opened RespParser

  /** The decimal digits of `n`, most significant first, without leading zeros. */
  function DecimalDigits(n: nat): seq<byte> {
    if n < 10 then [Zero + n as byte]
    else DecimalDigits(n / 10) + [Zero + (n % 10) as byte]
  }

  /** ASCII signed decimal: a `-` before the digits of a negative number. */
  function Decimal(n: int): seq<byte> {
    if n < 0 then [Minus] + DecimalDigits(-n) else DecimalDigits(n)
  }

  /** No CR immediately followed by LF inside `s`. */
  predicate NoCrlf(s: seq<byte>) {
    forall k :: 0 <= k < |s| - 1 ==> !(s[k] == CR && s[k + 1] == LF)
  }

  /** Values that have an encoding: a simple string may not contain CRLF (the
      decoder stops at the first one); every element of an array must be
      well-formed itself. */
  predicate WellFormed(d: Data) {
    match d
    case SimpleString(s) => NoCrlf(s)
    case Array(es) => forall k :: 0 <= k < |es| ==> WellFormed(es[k])
    case _ => true
  }

  /** The encoding of one value:
        Number        `:` decimal CRLF
        SimpleString  `+` text CRLF
        BulkString    `$` decimal length CRLF bytes CRLF
        Array         `*` decimal count CRLF elements */
  function Encode(d: Data): seq<byte>
    decreases d, 1
  {
    match d
    case Number(n) => [NumberTag] + Decimal(n) + CRLF
    case SimpleString(s) => [SimpleStringTag] + s + CRLF
    case BulkString(s) => [BulkStringTag] + Decimal(|s|) + CRLF + s + CRLF
    case Array(es) => [ArrayTag] + Decimal(|es|) + CRLF + EncodeAll(es)
  }

  /** The encodings of a run of values, back to back. */
  function EncodeAll(es: seq<Data>): seq<byte>
    decreases es, 0
  {
    if es == [] then [] else Encode(es[0]) + EncodeAll(es[1..])
  }

  // ---------------------------------------------------------------------------
  // Numbers survive the trip through their decimal text

  /** The digits of `n` are at least one, and all ASCII digits. */
  lemma {:induction false} DecimalDigitsAreDigits(n: nat)
    ensures var s := DecimalDigits(n); |s| >= 1 && forall k :: 0 <= k < |s| ==> IsDigit(s[k])
    decreases n
  {
    if n >= 10 {
      DecimalDigitsAreDigits(n / 10);
    }
  }

  /** Decimal text never contains a CRLF, so it can sit inside a header line. */
  lemma DecimalNoCrlf(n: int)
    ensures NoCrlf(Decimal(n))
  {
    DecimalDigitsAreDigits(if n < 0 then -n else n);
  }

  /** Reading back the digits of `n` gives `n`. */
  lemma {:induction false} DigitsRoundTrip(n: nat)
    ensures var s := DecimalDigits(n); Digits(s, 0, |s|) == Some(n)
    decreases n
  {
    DecimalDigitsAreDigits(n);
    if n >= 10 {
      var s := DecimalDigits(n);
      var t := DecimalDigits(n / 10);
      DigitsRoundTrip(n / 10);
      DigitsPrefix(t, s, 0, |t|);
    }
  }

  /** Digits only looks at the bytes in its range. */
  lemma {:induction false} DigitsPrefix(t: seq<byte>, s: seq<byte>, lo: nat, hi: nat)
    requires lo <= hi <= |t| <= |s| && t == s[..|t|]
    ensures Digits(t, lo, hi) == Digits(s, lo, hi)
    decreases hi - lo
  {
    if hi > lo {
      assert t[hi - 1] == s[hi - 1];
      DigitsPrefix(t, s, lo, hi - 1);
    }
  }

  /** Digits of a range is Digits of the same range one byte further on. */
  lemma {:induction false} DigitsShift(b: byte, s: seq<byte>, lo: nat, hi: nat)
    requires lo <= hi <= |s|
    ensures Digits([b] + s, lo + 1, hi + 1) == Digits(s, lo, hi)
    decreases hi - lo
  {
    if hi > lo {
      assert ([b] + s)[hi] == s[hi - 1];
      DigitsShift(b, s, lo, hi - 1);
    }
  }

  /** `Number(str)` inverts Decimal. */
  lemma NumberRoundTrip(n: int)
    ensures ToNumber(Decimal(n)) == Some(n)
  {
    if n < 0 {
      var s := DecimalDigits(-n);
      DecimalDigitsAreDigits(-n);
      DigitsRoundTrip(-n);
      DigitsShift(Minus, s, 0, |s|);
    } else {
      var s := DecimalDigits(n);
      DecimalDigitsAreDigits(n);
      DigitsRoundTrip(n);
      assert IsDigit(s[0]);
    }
  }

  /** The length converter accepts every encoded count or length. */
  lemma LengthRoundTrip(n: nat)
    ensures ToLength(Decimal(n)) == Some(n)
  {
    NumberRoundTrip(n);
  }

  // ---------------------------------------------------------------------------
  // Reading encoded bytes back out of a buffer

  /** A match of `x + y` is a match of `x` followed by a match of `y`. */
  lemma MatchesConcat(buf: seq<byte>, at: int, x: seq<byte>, y: seq<byte>)
    requires MatchesAt(buf, at, x + y)
    ensures MatchesAt(buf, at, x) && MatchesAt(buf, at + |x|, y)
  {
    assert buf[at..at + |x|] == (x + y)[..|x|];
    assert buf[at + |x|..at + |x| + |y|] == (x + y)[|x|..];
  }

  /** A header line `tag` + `body` + CRLF written at `at`, with no CRLF inside
      the body, is recognised as such: its first CRLF is the one that ends it. */
  lemma HeaderAt(buf: seq<byte>, at: int, tag: byte, body: seq<byte>)
    requires MatchesAt(buf, at, [tag] + body + CRLF)
    requires NoCrlf(body)
    ensures HeaderLine(ParseState(buf, at), tag, at + 1 + |body|)
    ensures buf[at + 1..at + 1 + |body|] == body
  {
    var line := [tag] + body + CRLF;
    var end := at + 1 + |body|;
    assert forall k :: 0 <= k < |line| ==> buf[at + k] == line[k] by {
      forall k | 0 <= k < |line|
        ensures buf[at + k] == line[k]
      {
        assert buf[at..at + |line|][k] == buf[at + k];
      }
    }
    assert buf[at] == line[0];
    assert buf[end] == line[end - at] && buf[end + 1] == line[end + 1 - at];
    forall i | at + 1 <= i < end
      ensures !CrlfAt(buf, i)
    {
      assert buf[i] == line[i - at];
      assert buf[i + 1] == line[i + 1 - at];
      assert line[i - at] == body[i - at - 1];
      if i + 1 < end {
        assert line[i + 1 - at] == body[i - at];
      }
    }
    assert buf[at + 1..end] == body by {
      forall k | 0 <= k < |body|
        ensures buf[at + 1..end][k] == body[k]
      {
        assert buf[at + 1 + k] == line[1 + k];
      }
    }
  }

  // ---------------------------------------------------------------------------
  // Each decoder reads back what is written for it

  /** What decoding one value from `at` in `buf` gives. */
  function DecodeAt(buf: seq<byte>, at: int): ParseResult {
    ParseWithState(ParseState(buf, at))
  }

  /** What decoding `n` values in a row from `at` in `buf` gives. */
  function DecodeRunAt(buf: seq<byte>, at: int, n: nat): Option<Elements> {
    if 0 <= at <= |buf| then ParseElements(ParseState(buf, at), n) else None
  }

  /** A `:` line whose body converts to `n` decodes to Number(n). */
  lemma NumberAt(buf: seq<byte>, at: int, body: seq<byte>, n: int, end: int)
    requires MatchesAt(buf, at, [NumberTag] + body + CRLF) && end == at + |body| + 3
    requires NoCrlf(body) && ToNumber(body) == Some(n)
    ensures DecodeAt(buf, at) == Some(Parsed(Number(n), ParseState(buf, end)))
  {
    HeaderAt(buf, at, NumberTag, body);
    NumberSpec(ParseState(buf, at), at + 1 + |body|);
    Dispatch(ParseState(buf, at), NumberTag);
  }

  /** A `+` line with a body free of CRLF decodes to that body. */
  lemma SimpleStringAt(buf: seq<byte>, at: int, s: seq<byte>, end: int)
    requires MatchesAt(buf, at, [SimpleStringTag] + s + CRLF) && end == at + |s| + 3
    requires NoCrlf(s)
    ensures DecodeAt(buf, at) == Some(Parsed(SimpleString(s), ParseState(buf, end)))
  {
    HeaderAt(buf, at, SimpleStringTag, s);
    SimpleStringSpec(ParseState(buf, at), at + 1 + |s|);
    Dispatch(ParseState(buf, at), SimpleStringTag);
  }

  /** The payload `s` + CRLF written at `at`: the bytes are `s`, and a CRLF
      follows them. */
  lemma PayloadAt(buf: seq<byte>, at: int, s: seq<byte>)
    requires MatchesAt(buf, at, s + CRLF)
    ensures CrlfAt(buf, at + |s|) && buf[at..at + |s|] == s
  {
    MatchesConcat(buf, at, s, CRLF);
    CrlfAtMatches(buf, at + |s|);
  }

  /** A `$` line declaring |s|, followed by `s` and CRLF, decodes to `s`. */
  lemma BulkStringAt(buf: seq<byte>, at: int, body: seq<byte>, s: seq<byte>, end: int)
    requires MatchesAt(buf, at, [BulkStringTag] + body + CRLF)
    requires NoCrlf(body) && ToLength(body) == Some(|s|)
    requires MatchesAt(buf, at + |body| + 3, s + CRLF) && end == at + |body| + 5 + |s|
    ensures DecodeAt(buf, at) == Some(Parsed(BulkString(s), ParseState(buf, end)))
  {
    BulkRuleAt(buf, at, body, s, end);
    Dispatch(ParseState(buf, at), BulkStringTag);
  }

  /** BulkStringFollows at the index `at` of `buf`, ending at `end`. It is
      kept beside BulkStringFollows because its contract names `buf` and `at`
      where BulkStringFollows names `state.input` and `state.index`: with the
      terms of BulkRuleAt spelled out the same way, the solver does not have
      to relate the two forms, which keeps BulkRuleAt's proof small. */
  lemma BulkRuleFrom(buf: seq<byte>, at: int, header: int, s: seq<byte>, end: int)
    requires HeaderLine(ParseState(buf, at), BulkStringTag, header)
    requires ToLength(buf[at + 1..header]) == Some(|s|)
    requires CrlfAt(buf, header + 2 + |s|) && buf[header + 2..header + 2 + |s|] == s
    requires end == header + 4 + |s|
    ensures HasPrefix(ParseState(buf, at), BulkStringTag)
    ensures ParseBulkString(ParseState(buf, at)) == Some(Parsed(BulkString(s), ParseState(buf, end)))
  {
    BulkStringFollows(ParseState(buf, at), header, s);
  }

  /** The bulk-string rule itself, applied to the same bytes as BulkStringAt. */
  lemma BulkRuleAt(buf: seq<byte>, at: int, body: seq<byte>, s: seq<byte>, end: int)
    requires MatchesAt(buf, at, [BulkStringTag] + body + CRLF)
    requires NoCrlf(body) && ToLength(body) == Some(|s|)
    requires MatchesAt(buf, at + |body| + 3, s + CRLF) && end == at + |body| + 5 + |s|
    ensures HasPrefix(ParseState(buf, at), BulkStringTag)
    ensures ParseBulkString(ParseState(buf, at)) == Some(Parsed(BulkString(s), ParseState(buf, end)))
  {
    var header := at + 1 + |body|;
    var state := ParseState(buf, at);
    assert HeaderLine(state, BulkStringTag, header) && ToLength(buf[at + 1..header]) == Some(|s|) by {
      HeaderAt(buf, at, BulkStringTag, body);
    }
    assert CrlfAt(buf, header + 2 + |s|) && buf[header + 2..header + 2 + |s|] == s by {
      PayloadAt(buf, header + 2, s);
    }
    BulkRuleFrom(buf, at, header, s, end);
  }

  /** A `*` line declaring a count, followed by that many values that decode
      in turn up to `end`, decodes to the array of them. */
  lemma ArrayAt(buf: seq<byte>, at: int, body: seq<byte>, es: seq<Data>, end: int)
    requires MatchesAt(buf, at, [ArrayTag] + body + CRLF)
    requires NoCrlf(body) && ToLength(body) == Some(|es|)
    requires DecodeRunAt(buf, at + |body| + 3, |es|) == Some(Elements(es, ParseState(buf, end)))
    ensures DecodeAt(buf, at) == Some(Parsed(Array(es), ParseState(buf, end)))
  {
    ArrayRuleAt(buf, at, body, es, end);
    Dispatch(ParseState(buf, at), ArrayTag);
  }

  /** The array rule itself, applied to the same bytes as ArrayAt. */
  lemma ArrayRuleAt(buf: seq<byte>, at: int, body: seq<byte>, es: seq<Data>, end: int)
    requires MatchesAt(buf, at, [ArrayTag] + body + CRLF)
    requires NoCrlf(body) && ToLength(body) == Some(|es|)
    requires DecodeRunAt(buf, at + |body| + 3, |es|) == Some(Elements(es, ParseState(buf, end)))
    ensures HasPrefix(ParseState(buf, at), ArrayTag)
    ensures ParseArray(ParseState(buf, at)) == Some(Parsed(Array(es), ParseState(buf, end)))
  {
    var header := at + 1 + |body|;
    HeaderAt(buf, at, ArrayTag, body);
    assert ToLength(buf[at + 1..header]) == Some(|es|);
    assert ParseElements(ParseState(buf, header + 2), |es|) == Some(Elements(es, ParseState(buf, end)));
    ArraySpec(ParseState(buf, at), header);
  }

  // ---------------------------------------------------------------------------
  // The round trip

  /** A well-formed value encoded at `at` decodes back to itself, and the state
      ends exactly after its encoding, whatever else the buffer holds. */
  lemma RoundTrip(d: Data, buf: seq<byte>, at: int)
    requires WellFormed(d)
    requires MatchesAt(buf, at, Encode(d))
    ensures DecodeAt(buf, at) == Some(Parsed(d, ParseState(buf, at + |Encode(d)|)))
  {
    RoundTripTo(d, buf, at, at + |Encode(d)|);
  }

  /** RoundTrip, with the position where the encoding ends named `end`. */
  lemma {:induction false} RoundTripTo(d: Data, buf: seq<byte>, at: int, end: int)
    requires WellFormed(d)
    requires MatchesAt(buf, at, Encode(d)) && end == at + |Encode(d)|
    ensures DecodeAt(buf, at) == Some(Parsed(d, ParseState(buf, end)))
    decreases d, 2
  {
    match d
    case Number(n) => NumberRoundTripAt(n, buf, at, end);
    case SimpleString(s) => SimpleStringRoundTripAt(s, buf, at, end);
    case BulkString(s) => BulkStringRoundTripAt(s, buf, at, end);
    case Array(es) => ArrayRoundTripAt(es, buf, at, end);
  }

  /** The number case of RoundTrip. */
  lemma NumberRoundTripAt(n: int, buf: seq<byte>, at: int, end: int)
    requires MatchesAt(buf, at, Encode(Number(n))) && end == at + |Encode(Number(n))|
    ensures DecodeAt(buf, at) == Some(Parsed(Number(n), ParseState(buf, end)))
  {
    assert Encode(Number(n)) == [NumberTag] + Decimal(n) + CRLF;
    NumberRoundTrip(n);
    DecimalNoCrlf(n);
    NumberAt(buf, at, Decimal(n), n, end);
  }

  /** The simple-string case of RoundTrip. */
  lemma SimpleStringRoundTripAt(s: seq<byte>, buf: seq<byte>, at: int, end: int)
    requires NoCrlf(s)
    requires MatchesAt(buf, at, Encode(SimpleString(s))) && end == at + |Encode(SimpleString(s))|
    ensures DecodeAt(buf, at) == Some(Parsed(SimpleString(s), ParseState(buf, end)))
  {
    assert Encode(SimpleString(s)) == [SimpleStringTag] + s + CRLF;
    SimpleStringAt(buf, at, s, end);
  }

  /** The bulk-string case of RoundTrip. */
  lemma BulkStringRoundTripAt(s: seq<byte>, buf: seq<byte>, at: int, end: int)
    requires MatchesAt(buf, at, Encode(BulkString(s))) && end == at + |Encode(BulkString(s))|
    ensures DecodeAt(buf, at) == Some(Parsed(BulkString(s), ParseState(buf, end)))
  {
    var header := [BulkStringTag] + Decimal(|s|) + CRLF;
    assert Encode(BulkString(s)) == header + (s + CRLF);
    MatchesConcat(buf, at, header, s + CRLF);
    LengthRoundTrip(|s|);
    DecimalNoCrlf(|s|);
    BulkStringAt(buf, at, Decimal(|s|), s, end);
  }

  /** The array case of RoundTrip. */
  lemma {:induction false} ArrayRoundTripAt(es: seq<Data>, buf: seq<byte>, at: int, end: int)
    requires forall k :: 0 <= k < |es| ==> WellFormed(es[k])
    requires MatchesAt(buf, at, Encode(Array(es))) && end == at + |Encode(Array(es))|
    ensures DecodeAt(buf, at) == Some(Parsed(Array(es), ParseState(buf, end)))
    decreases es, 1
  {
    SplitArray(es, buf, at);
    RoundTripAll(es, buf, at + |Decimal(|es|)| + 3, end);
    LengthRoundTrip(|es|);
    DecimalNoCrlf(|es|);
    ArrayAt(buf, at, Decimal(|es|), es, end);
  }

  /** The encoding of an array is its header line followed by its elements. */
  lemma SplitArray(es: seq<Data>, buf: seq<byte>, at: int)
    requires MatchesAt(buf, at, Encode(Array(es)))
    ensures MatchesAt(buf, at, [ArrayTag] + Decimal(|es|) + CRLF)
    ensures MatchesAt(buf, at + |Decimal(|es|)| + 3, EncodeAll(es))
    ensures |Encode(Array(es))| == |Decimal(|es|)| + 3 + |EncodeAll(es)|
  {
    var header := [ArrayTag] + Decimal(|es|) + CRLF;
    assert Encode(Array(es)) == header + EncodeAll(es);
    MatchesConcat(buf, at, header, EncodeAll(es));
  }

  /** Values encoded back to back decode one after another, each from where
      the previous one ended. */
  lemma {:induction false} RoundTripAll(es: seq<Data>, buf: seq<byte>, at: int, end: int)
    requires forall k :: 0 <= k < |es| ==> WellFormed(es[k])
    requires MatchesAt(buf, at, EncodeAll(es)) && end == at + |EncodeAll(es)|
    ensures DecodeRunAt(buf, at, |es|) == Some(Elements(es, ParseState(buf, end)))
    decreases es, 0
  {
    if es == [] {
      assert EncodeAll(es) == [];
    } else {
      var mid := at + |Encode(es[0])|;
      SplitEncodings(es, buf, at);
      RoundTripTo(es[0], buf, at, mid);
      RoundTripAll(es[1..], buf, mid, end);
      ElementsConsAt(buf, at, es, mid, end);
    }
  }

  /** The first encoding of a run and the rest of the run, each in place. */
  lemma SplitEncodings(es: seq<Data>, buf: seq<byte>, at: int)
    requires es != []
    requires forall k :: 0 <= k < |es| ==> WellFormed(es[k])
    requires MatchesAt(buf, at, EncodeAll(es))
    ensures WellFormed(es[0]) && forall k :: 0 <= k < |es[1..]| ==> WellFormed(es[1..][k])
    ensures MatchesAt(buf, at, Encode(es[0]))
    ensures MatchesAt(buf, at + |Encode(es[0])|, EncodeAll(es[1..]))
    ensures at + |Encode(es[0])| + |EncodeAll(es[1..])| == at + |EncodeAll(es)|
  {
    assert EncodeAll(es) == Encode(es[0]) + EncodeAll(es[1..]);
    MatchesConcat(buf, at, Encode(es[0]), EncodeAll(es[1..]));
    forall k | 0 <= k < |es[1..]|
      ensures WellFormed(es[1..][k])
    {
      assert es[1..][k] == es[k + 1];
    }
  }

  /** ElementsCons for a run given as a sequence of values in one buffer. */
  lemma ElementsConsAt(buf: seq<byte>, at: int, es: seq<Data>, mid: int, last: int)
    requires es != [] && 0 <= at <= |buf| && 0 <= mid <= |buf|
    requires DecodeAt(buf, at) == Some(Parsed(es[0], ParseState(buf, mid)))
    requires DecodeRunAt(buf, mid, |es[1..]|) == Some(Elements(es[1..], ParseState(buf, last)))
    ensures DecodeRunAt(buf, at, |es|) == Some(Elements(es, ParseState(buf, last)))
  {
    ElementsCons(ParseState(buf, at), |es|, es[0], ParseState(buf, mid), es[1..], ParseState(buf, last));
    assert [es[0]] + es[1..] == es;
  }

  /** `parse` inverts Encode on a buffer that starts with the encoding. */
  lemma ParseRoundTrip(d: Data, rest: seq<byte>)
    requires WellFormed(d)
    ensures Parse(Encode(d) + rest) == Some(d)
  {
    var buf := Encode(d) + rest;
    assert buf[0..|Encode(d)|] == Encode(d);
    RoundTrip(d, buf, 0);
  }
}
