/**
 * The decoding examples of app/parser.spec.ts, stated as lemmas about the
 * decoder: the value each buffer decodes to and the index the state ends at,
 * or that the buffer is rejected. Buffers are written as the ASCII bytes of
 * the test strings, assembled from the named pieces below.
 */
module RespExamples {
  import opened Wrappers
  import opened RespParser
  import opened RespEncoding

  // ASCII texts of the examples
  const Text123: seq<byte> := [0x31, 0x32, 0x33]                 // 123
  const TextAbc: seq<byte> := [0x61, 0x62, 0x63]                 // abc
  const TextHello: seq<byte> := [0x48, 0x65, 0x6c, 0x6c, 0x6f]   // Hello
  const TextWorld: seq<byte> := [0x57, 0x6f, 0x72, 0x6c, 0x64]   // World
  const TextInvalid: seq<byte> := [0x69, 0x6e, 0x76, 0x61, 0x6c, 0x69, 0x64]  // invalid
  // Hello, World!
  const TextGreeting: seq<byte> :=
    [0x48, 0x65, 0x6c, 0x6c, 0x6f, 0x2c, 0x20, 0x57, 0x6f, 0x72, 0x6c, 0x64, 0x21]
  // Hello World
  const TextHelloWorld: seq<byte> :=
    [0x48, 0x65, 0x6c, 0x6c, 0x6f, 0x20, 0x57, 0x6f, 0x72, 0x6c, 0x64]

  // Encoded values that several examples share
  const Number123: seq<byte> := [NumberTag] + Text123 + CRLF                     // :123\r\n
  const NumberAbc: seq<byte> := [NumberTag] + TextAbc + CRLF                     // :abc\r\n
  const SimpleHello: seq<byte> := [SimpleStringTag] + TextHello + CRLF           // +Hello\r\n
  const BulkWorld: seq<byte> := [BulkStringTag, Zero + 5] + CRLF + (TextWorld + CRLF)  // $5\r\nWorld\r\n

  // ---------------------------------------------------------------------------
  // Values that decode

  /** `:123\r\n` is the number 123, ending at 6. */
  lemma NumberExample()
    ensures DecodeAt(Number123, 0) == Some(Parsed(Number(123), ParseState(Number123, 6)))
  {
    NumberIn(Number123, 0);
  }

  /** `+Hello, World!\r\n` is the simple string `Hello, World!`, ending at 16. */
  lemma SimpleStringExample()
    ensures var input := [SimpleStringTag] + TextGreeting + CRLF;
      DecodeAt(input, 0) == Some(Parsed(SimpleString(TextGreeting), ParseState(input, 16)))
  {
    var input := [SimpleStringTag] + TextGreeting + CRLF;
    SimpleStringAt(input, 0, TextGreeting, 16);
  }

  /** `$5\r\nHello\r\n` is the bulk string `Hello`, ending at 11. */
  lemma BulkStringExample()
    ensures var input := [BulkStringTag, Zero + 5] + CRLF + (TextHello + CRLF);
      DecodeAt(input, 0) == Some(Parsed(BulkString(TextHello), ParseState(input, 11)))
  {
    var input := [BulkStringTag, Zero + 5] + CRLF + (TextHello + CRLF);
    BulkIn(input, 0, TextHello);
  }

  /** `$0\r\n\r\n` is the empty bulk string, ending at 6. */
  lemma EmptyBulkStringExample()
    ensures var input := [BulkStringTag, Zero] + CRLF + CRLF;
      DecodeAt(input, 0) == Some(Parsed(BulkString([]), ParseState(input, 6)))
  {
    var input := [BulkStringTag, Zero] + CRLF + CRLF;
    var body := [Zero];
    assert input == [BulkStringTag] + body + CRLF + ([] + CRLF);
    DigitLength(0);
    MatchesConcat(input, 0, [BulkStringTag] + body + CRLF, [] + CRLF);
    BulkStringAt(input, 0, body, [], 6);
  }

  /** `*0\r\n` is the empty array, ending at 4. */
  lemma EmptyArrayExample()
    ensures var input := [ArrayTag, Zero] + CRLF;
      DecodeAt(input, 0) == Some(Parsed(Array([]), ParseState(input, 4)))
  {
    var input := [ArrayTag, Zero] + CRLF;
    var body := [Zero];
    assert input == [ArrayTag] + body + CRLF;
    DigitLength(0);
    ArrayAt(input, 0, body, [], 4);
  }

  /** `*1\r\n:123\r\n` is the array of 123, ending at 10. */
  lemma SingleElementArrayExample()
    ensures var input := [ArrayTag, Zero + 1] + CRLF + Number123;
      DecodeAt(input, 0) == Some(Parsed(Array([Number(123)]), ParseState(input, 10)))
  {
    var input := [ArrayTag, Zero + 1] + CRLF + Number123;
    assert input[..4] == [ArrayTag, Zero + 1] + CRLF;
    assert input[4..10] == Number123;
    SingletonIn(input, 0);
  }

  /** `*3\r\n:123\r\n+Hello\r\n$5\r\nWorld\r\n` is an array of a number, a
      simple string and a bulk string, ending at 29. */
  lemma MultipleElementArrayExample()
    ensures var input := [ArrayTag, Zero + 3] + CRLF + Number123 + SimpleHello + BulkWorld;
      DecodeAt(input, 0) ==
        Some(Parsed(Array([Number(123), SimpleString(TextHello), BulkString(TextWorld)]), ParseState(input, 29)))
  {
    var input := [ArrayTag, Zero + 3] + CRLF + Number123 + SimpleHello + BulkWorld;
    var es := [Number(123), SimpleString(TextHello), BulkString(TextWorld)];
    var body := [Zero + 3];
    assert input[..4] == [ArrayTag] + body + CRLF;
    DigitLength(3);
    assert input[4..10] == Number123;
    assert input[10..18] == SimpleHello;
    assert input[18..29] == BulkWorld;
    ThreeElementsIn(input);
    ArrayAt(input, 0, body, es, 29);
  }

  /** The three elements of the example above, decoded one after another. */
  lemma ThreeElementsIn(input: seq<byte>)
    requires |input| == 29
    requires input[4..10] == Number123 && input[10..18] == SimpleHello && input[18..29] == BulkWorld
    ensures DecodeRunAt(input, 4, 3) ==
      Some(Elements([Number(123), SimpleString(TextHello), BulkString(TextWorld)], ParseState(input, 29)))
  {
    var es := [Number(123), SimpleString(TextHello), BulkString(TextWorld)];
    NumberIn(input, 4);
    HelloIn(input, 10);
    BulkIn(input, 18, TextWorld);
    ElementsConsAt(input, 18, es[2..], 29, 29);
    ElementsConsAt(input, 10, es[1..], 18, 29);
    ElementsConsAt(input, 4, es, 10, 29);
  }

  /** `*2\r\n*1\r\n:123\r\n+Hello\r\n` is an array holding the array of 123
      and the simple string `Hello`, ending at 22. */
  lemma NestedArrayExample()
    ensures var input := [ArrayTag, Zero + 2] + CRLF + ([ArrayTag, Zero + 1] + CRLF) + Number123 + SimpleHello;
      DecodeAt(input, 0) ==
        Some(Parsed(Array([Array([Number(123)]), SimpleString(TextHello)]), ParseState(input, 22)))
  {
    var input := [ArrayTag, Zero + 2] + CRLF + ([ArrayTag, Zero + 1] + CRLF) + Number123 + SimpleHello;
    var es := [Array([Number(123)]), SimpleString(TextHello)];
    var body := [Zero + 2];
    assert input[..4] == [ArrayTag] + body + CRLF;
    DigitLength(2);
    assert input[4..8] == [ArrayTag, Zero + 1] + CRLF;
    assert input[8..14] == Number123;
    assert input[14..22] == SimpleHello;
    SingletonIn(input, 4);
    HelloIn(input, 14);
    ElementsConsAt(input, 14, es[1..], 22, 22);
    ElementsConsAt(input, 4, es, 14, 22);
    ArrayAt(input, 0, body, es, 22);
  }

  /** `parse` keeps only the value of the nested example. */
  lemma ParseNestedExample()
    ensures Parse([ArrayTag, Zero + 2] + CRLF + ([ArrayTag, Zero + 1] + CRLF) + Number123 + SimpleHello) ==
      Some(Array([Array([Number(123)]), SimpleString(TextHello)]))
  {
    NestedArrayExample();
  }

  /** In `:123\r\n+Hello\r\n$5\r\nWorld\r\n`, feeding each returned state
      back in decodes the next value of the same buffer, ending at 6, 14 and
      25. */
  lemma ConsecutiveValuesExample()
    ensures var input := Number123 + SimpleHello + BulkWorld;
      var r1 := DecodeAt(input, 0);
      && r1 == Some(Parsed(Number(123), ParseState(input, 6)))
      && var r2 := ParseWithState(r1.value.state);
      && r2 == Some(Parsed(SimpleString(TextHello), ParseState(input, 14)))
      && ParseWithState(r2.value.state) == Some(Parsed(BulkString(TextWorld), ParseState(input, 25)))
  {
    var input := Number123 + SimpleHello + BulkWorld;
    assert input[..6] == Number123;
    assert input[6..14] == SimpleHello;
    assert input[14..25] == BulkWorld;
    NumberIn(input, 0);
    HelloIn(input, 6);
    BulkIn(input, 14, TextWorld);
  }

  /** `:\r\n`: the empty body converts as `Number("")` does, to 0, so the
      line decodes to the number 0 and ends at 3. */
  lemma EmptyNumberExample()
    ensures var input := [NumberTag] + CRLF;
      DecodeAt(input, 0) == Some(Parsed(Number(0), ParseState(input, 3)))
  {
    var input := [NumberTag] + CRLF;
    assert input == [NumberTag] + [] + CRLF;
    NumberAt(input, 0, [], 0, 3);
  }

  // ---------------------------------------------------------------------------
  // Buffers that are rejected

  /** `invalid`: a leading byte that is no tag. */
  lemma InvalidInputExample()
    ensures DecodeAt(TextInvalid, 0) == None
  {
    assert !IsTag(TextInvalid[0]);
  }

  /** `:abc\r\n`: a number whose body is not numeric. */
  lemma InvalidNumberExample()
    ensures DecodeAt(NumberAbc, 0) == None
  {
    AbcIn(NumberAbc, 0);
  }

  /** `$-1\r\nHello\r\n`: a bulk string declaring a negative length. */
  lemma NegativeBulkLengthExample()
    ensures DecodeAt([BulkStringTag, Minus, Zero + 1] + CRLF + (TextHello + CRLF), 0) == None
  {
    var input := [BulkStringTag, Minus, Zero + 1] + CRLF + (TextHello + CRLF);
    var state := ParseState(input, 0);
    assert HeaderLine(state, BulkStringTag, 3);
    assert input[1..3] == [Minus, Zero + 1];
    BulkStringRejectsBadLength(state, 3);
    Dispatch(state, BulkStringTag);
  }

  /** `$5\r\nHello World\r\n`: a payload longer than declared, so no CRLF
      follows the five declared bytes. */
  lemma WrongBulkLengthExample()
    ensures DecodeAt([BulkStringTag, Zero + 5] + CRLF + (TextHelloWorld + CRLF), 0) == None
  {
    var input := [BulkStringTag, Zero + 5] + CRLF + (TextHelloWorld + CRLF);
    var state := ParseState(input, 0);
    assert HeaderLine(state, BulkStringTag, 2);
    assert input[1..2] == [Zero + 5];
    DigitLength(5);
    BulkStringSpec(state, 2, 5);
    assert input[9] == TextHelloWorld[5];
    Dispatch(state, BulkStringTag);
  }

  /** `*-1\r\n`: an array declaring a negative count. */
  lemma NegativeArrayCountExample()
    ensures DecodeAt([ArrayTag, Minus, Zero + 1] + CRLF, 0) == None
  {
    var input := [ArrayTag, Minus, Zero + 1] + CRLF;
    var state := ParseState(input, 0);
    assert HeaderLine(state, ArrayTag, 3);
    assert input[1..3] == [Minus, Zero + 1];
    ArraySpec(state, 3);
    Dispatch(state, ArrayTag);
  }

  /** `*1\r\n:abc\r\n`: an array whose only element fails fails as a whole. */
  lemma InvalidElementExample()
    ensures DecodeAt([ArrayTag, Zero + 1] + CRLF + NumberAbc, 0) == None
  {
    var input := [ArrayTag, Zero + 1] + CRLF + NumberAbc;
    var state := ParseState(input, 0);
    assert input[4..10] == NumberAbc;
    AbcIn(input, 4);
    ElementsStep(ParseState(input, 4), 1);
    assert HeaderLine(state, ArrayTag, 2);
    assert input[1..2] == [Zero + 1];
    DigitLength(1);
    ArraySpec(state, 2);
    Dispatch(state, ArrayTag);
  }

  // ---------------------------------------------------------------------------
  // Pieces shared by the examples

  /** `:123\r\n` at `at` decodes to 123. */
  lemma NumberIn(input: seq<byte>, at: nat)
    requires at + 6 <= |input| && input[at..at + 6] == Number123
    ensures DecodeAt(input, at) == Some(Parsed(Number(123), ParseState(input, at + 6)))
  {
    assert Digits(Text123, 0, 1) == Some(1);
    assert Digits(Text123, 0, 2) == Some(12);
    assert ToNumber(Text123) == Some(123);
    NumberAt(input, at, Text123, 123, at + 6);
  }

  /** `+Hello\r\n` at `at` decodes to the simple string `Hello`. */
  lemma HelloIn(input: seq<byte>, at: nat)
    requires at + 8 <= |input| && input[at..at + 8] == SimpleHello
    ensures DecodeAt(input, at) == Some(Parsed(SimpleString(TextHello), ParseState(input, at + 8)))
  {
    SimpleStringAt(input, at, TextHello, at + 8);
  }

  /** `$5\r\n`, five bytes `s` and CRLF at `at` decode to `s`. */
  lemma BulkIn(input: seq<byte>, at: nat, s: seq<byte>)
    requires |s| == 5 && at + 11 <= |input|
    requires input[at..at + 11] == [BulkStringTag, Zero + 5] + CRLF + (s + CRLF)
    ensures DecodeAt(input, at) == Some(Parsed(BulkString(s), ParseState(input, at + 11)))
  {
    var body := [Zero + 5];
    assert [BulkStringTag, Zero + 5] + CRLF == [BulkStringTag] + body + CRLF;
    MatchesConcat(input, at, [BulkStringTag] + body + CRLF, s + CRLF);
    DigitLength(5);
    BulkStringAt(input, at, body, s, at + 11);
  }

  /** `*1\r\n:123\r\n` at `at` decodes to the array of 123. */
  lemma SingletonIn(input: seq<byte>, at: nat)
    requires at + 10 <= |input|
    requires input[at..at + 4] == [ArrayTag, Zero + 1] + CRLF && input[at + 4..at + 10] == Number123
    ensures DecodeAt(input, at) == Some(Parsed(Array([Number(123)]), ParseState(input, at + 10)))
  {
    var body := [Zero + 1];
    assert [ArrayTag, Zero + 1] + CRLF == [ArrayTag] + body + CRLF;
    DigitLength(1);
    NumberIn(input, at + 4);
    ElementsConsAt(input, at + 4, [Number(123)], at + 10, at + 10);
    ArrayAt(input, at, body, [Number(123)], at + 10);
  }

  /** A one-digit length or count. */
  lemma DigitLength(n: nat)
    requires n < 10
    ensures ToLength([Zero + n as byte]) == Some(n)
  {
    LengthRoundTrip(n);
  }

  /** `:abc\r\n` at `at` is rejected. */
  lemma AbcIn(input: seq<byte>, at: nat)
    requires at + 6 <= |input| && input[at..at + 6] == NumberAbc
    ensures ParseWithState(ParseState(input, at)) == None
  {
    var state := ParseState(input, at);
    assert HeaderLine(state, NumberTag, at + 4);
    assert ToNumber(input[at + 1..at + 4]) == None by {
      assert input[at + 3] == NumberAbc[3];
    }
    NumberSpec(state, at + 4);
    Dispatch(state, NumberTag);
  }
}
