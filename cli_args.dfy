/**
 * The command-line parser of app/cli-args.ts: arguments come in key/value
 * pairs, a key loses one leading `--`, and the keys `port`, `directory` and
 * `replicaof` overwrite the matching field of a record that starts from the
 * defaults. A port that is not an integer aborts the parse.
 */
module CliArgsParser {
  import opened Wrappers

  /** The `CliArgs` record. */
  datatype CliArgs = CliArgs(port: int, directory: string, replicaof: string)

  /** The record the loop starts from. */
  const Defaults := CliArgs(6379, "./public", "")

  /** The error thrown for a port that is not a number. */
  const PortError := "Port must be a number"

  // ---------------------------------------------------------------------------
  // Keys and values

  /** `replace(/^--/, "")`: one leading `--` is removed, and nothing else. */
  function StripDashes(arg: string): (r: string)
    ensures |arg| >= 2 && arg[..2] == "--" ==> "--" + r == arg
    ensures !(|arg| >= 2 && arg[..2] == "--") ==> r == arg
  {
    if |arg| >= 2 && arg[..2] == "--" then arg[2..] else arg
  }

  predicate IsDigitChar(ch: char) {
    '0' <= ch <= '9'
  }

  /** The length of the run of decimal digits that `s` starts with. */
  function LeadingDigits(s: string): (n: nat)
    ensures n <= |s|
    ensures forall k :: 0 <= k < n ==> IsDigitChar(s[k])
    ensures n < |s| ==> !IsDigitChar(s[n])
  {
    if s == [] || !IsDigitChar(s[0]) then 0 else 1 + LeadingDigits(s[1..])
  }

  /** The value of a run of decimal digits, most significant first. */
  function DigitsValue(s: string): nat
    requires forall k :: 0 <= k < |s| ==> IsDigitChar(s[k])
  {
    if s == [] then 0
    else
      var last := s[|s| - 1];
      assert IsDigitChar(last);
      DigitsValue(s[..|s| - 1]) * 10 + (last as int - '0' as int)
  }

  /** Whether `s` starts with a sign character. */
  predicate Signed(s: string) {
    |s| > 0 && (s[0] == '-' || s[0] == '+')
  }

  /** `parseInt(value, 10)`: an optional sign, then the longest run of decimal
      digits (whatever follows it is ignored); NaN, here None, when that run
      is empty. */
  function ParseInt(s: string): Option<int> {
    var digits := if Signed(s) then s[1..] else s;
    var n := LeadingDigits(digits);
    if n == 0 then None
    else
      var v: int := DigitsValue(digits[..n]);
      Some(if |s| > 0 && s[0] == '-' then -v else v)
  }

  /** `parseInt` gives NaN exactly when the character after the optional
      sign is missing or is not a decimal digit. */
  lemma {:induction false} ParseIntNaN(s: string)
    ensures ParseInt(s).None? <==>
      var j := if Signed(s) then 1 else 0;
      j == |s| || !IsDigitChar(s[j])
  {
    var digits := if Signed(s) then s[1..] else s;
    if digits != [] {
      assert digits[0] == s[if Signed(s) then 1 else 0];
    }
  }

  /** A `-` followed by digits reads as the negated digits, whatever text
      that does not continue the number follows (`parseInt("-12x")` is -12). */
  lemma {:induction false} ParseIntNegative(s: string, rest: string)
    requires s != [] && forall k :: 0 <= k < |s| ==> IsDigitChar(s[k])
    requires rest == [] || !IsDigitChar(rest[0])
    ensures ParseInt("-" + s + rest) == Some(-(DigitsValue(s) as int))
  {
    DropSign("-", s, rest);
    ParseIntStopsAtNonDigit(s, rest);
    ParseIntAfterSign("-" + s + rest, DigitsValue(s));
  }

  /** A `+` followed by digits reads as the digits themselves
      (`parseInt("+12x")` is 12). */
  lemma {:induction false} ParseIntPositive(s: string, rest: string)
    requires s != [] && forall k :: 0 <= k < |s| ==> IsDigitChar(s[k])
    requires rest == [] || !IsDigitChar(rest[0])
    ensures ParseInt("+" + s + rest) == Some(DigitsValue(s) as int)
  {
    DropSign("+", s, rest);
    ParseIntStopsAtNonDigit(s, rest);
    ParseIntAfterSign("+" + s + rest, DigitsValue(s));
  }

  /** Dropping a one-character sign leaves the text after it. */
  lemma {:induction false} DropSign(sign: string, s: string, rest: string)
    requires |sign| == 1
    ensures (sign + s + rest)[0] == sign[0]
    ensures (sign + s + rest)[1..] == s + rest
  {
  }

  /** A sign followed by an unsigned string reads as that string, negated
      after `-`. */
  lemma {:induction false} ParseIntAfterSign(t: string, v: int)
    requires Signed(t) && !Signed(t[1..])
    requires ParseInt(t[1..]) == Some(v)
    ensures ParseInt(t) == Some(if t[0] == '-' then -v else v)
  {
  }

  /** A number followed by text that does not continue it reads as that
      number alone (`parseInt("12abc")` is 12). */
  lemma {:induction false} ParseIntStopsAtNonDigit(s: string, rest: string)
    requires forall k :: 0 <= k < |s| ==> IsDigitChar(s[k])
    requires rest == [] || !IsDigitChar(rest[0])
    ensures ParseInt(s + rest) == if s == [] then ParseInt(rest) else Some(DigitsValue(s))
  {
    var t := s + rest;
    if s == [] {
      assert t == rest;
    } else {
      assert t[0] == s[0] && !Signed(t);
      LeadingDigitsStop(s, rest);
      assert t[..|s|] == s;
    }
  }

  lemma {:induction false} LeadingDigitsStop(s: string, rest: string)
    requires forall k :: 0 <= k < |s| ==> IsDigitChar(s[k])
    requires rest == [] || !IsDigitChar(rest[0])
    ensures LeadingDigits(s + rest) == |s|
    decreases |s|
  {
    if s != [] {
      assert (s + rest)[1..] == s[1..] + rest;
      LeadingDigitsStop(s[1..], rest);
    }
  }

  // ---------------------------------------------------------------------------
  // The parse, as a fold over the pairs

  /** One turn of the loop: the `switch` on the stripped key. Unknown keys
      change nothing. */
  function Apply(c: CliArgs, key: string, value: string): (r: Result<CliArgs, string>)
    ensures r.Failure? <==> StripDashes(key) == "port" && ParseInt(value).None?
    ensures r.Failure? ==> r.error == PortError
  {
    var name := StripDashes(key);
    if name == "port" then
      match ParseInt(value)
      case None => Failure(PortError)
      case Some(p) => Success(c.(port := p))
    else if name == "directory" then Success(c.(directory := value))
    else if name == "replicaof" then Success(c.(replicaof := value))
    else Success(c)
  }

  /** The pairs applied from left to right, stopping at the first failure. */
  function Configure(args: seq<string>, c: CliArgs): Result<CliArgs, string>
    requires |args| % 2 == 0
    decreases |args|
  {
    if args == [] then Success(c)
    else
      match Apply(c, args[0], args[1])
      case Failure(e) => Failure(e)
      case Success(next) => Configure(args[2..], next)
  }

  /** `parseCliArgs`: the loop stepping `i += 2` over the arguments and
      overwriting fields of the record; a bad port throws, here a Failure. */
  method ParseCliArgs(args: seq<string>) returns (r: Result<CliArgs, string>)
    requires |args| % 2 == 0
    ensures r == Configure(args, Defaults)
  {
    var config := Defaults;
    var i := 0;
    ConfigureFromSuffix(args, 0, Defaults);
    while i < |args|
      invariant 0 <= i <= |args| && i % 2 == 0
      invariant ConfigureFrom(args, i, config) == Configure(args, Defaults)
    {
      WholePair(|args|, i);
      var key := StripDashes(args[i]);
      var value := args[i + 1];
      if key == "port" {
        var port := ParseInt(value);
        if port.None? {
          return Failure(PortError);
        }
        config := config.(port := port.value);
      } else if key == "directory" {
        config := config.(directory := value);
      } else if key == "replicaof" {
        config := config.(replicaof := value);
      }
      i := i + 2;
    }
    return Success(config);
  }

  /** In a list of pairs, an even index before the end starts a whole pair,
      and the index after that pair is even again. */
  lemma WholePair(n: nat, i: nat)
    requires n % 2 == 0 && i % 2 == 0 && i < n
    ensures i + 2 <= n && (i + 2) % 2 == 0
  {
  }

  /** The fold seen from the loop: the pairs from index `i` on. */
  function ConfigureFrom(args: seq<string>, i: nat, c: CliArgs): Result<CliArgs, string>
    requires |args| % 2 == 0 && i % 2 == 0 && i <= |args|
    decreases |args| - i
  {
    if i == |args| then Success(c)
    else
      match Apply(c, args[i], args[i + 1])
      case Failure(e) => Failure(e)
      case Success(next) => ConfigureFrom(args, i + 2, next)
  }

  /** Folding from index `i` is folding the suffix that starts there. */
  lemma {:induction false} ConfigureFromSuffix(args: seq<string>, i: nat, c: CliArgs)
    requires |args| % 2 == 0 && i % 2 == 0 && i <= |args|
    ensures ConfigureFrom(args, i, c) == Configure(args[i..], c)
    decreases |args| - i
  {
    if i < |args| {
      var rest := args[i..];
      assert rest[0] == args[i] && rest[1] == args[i + 1] && rest[2..] == args[i + 2..];
      var step := Apply(c, args[i], args[i + 1]);
      if step.Success? {
        ConfigureFromSuffix(args, i + 2, step.value);
      }
    }
  }

  // ---------------------------------------------------------------------------
  // What the parse produces

  /** The value of the last pair whose stripped key is `key`, if any. */
  function LastValue(args: seq<string>, key: string): Option<string>
    requires |args| % 2 == 0
    decreases |args|
  {
    if args == [] then None
    else if StripDashes(args[|args| - 2]) == key then Some(args[|args| - 1])
    else LastValue(args[..|args| - 2], key)
  }

  /** A pair at an even position whose stripped key is `key`. */
  predicate KeyAt(args: seq<string>, j: int, key: string) {
    0 <= j < |args| - 1 && j % 2 == 0 && StripDashes(args[j]) == key
  }

  /** LastValue finds the last occurrence: it is None exactly when no pair has
      the key, and otherwise the value of the pair at `j` where no later pair
      has the key. */
  lemma {:induction false} LastValueIsLast(args: seq<string>, key: string)
    requires |args| % 2 == 0
    ensures LastValue(args, key).None? <==> forall j :: !KeyAt(args, j, key)
    ensures LastValue(args, key).Some? ==>
      exists j :: KeyAt(args, j, key) && LastValue(args, key).value == args[j + 1]
        && forall k :: KeyAt(args, k, key) ==> k <= j
    decreases |args|
  {
    if args != [] {
      var n := |args|;
      var init := args[..n - 2];
      LastValueIsLast(init, key);
      forall j | KeyAt(init, j, key)
        ensures KeyAt(args, j, key)
      {
      }
      forall j | KeyAt(args, j, key) && j < n - 2
        ensures KeyAt(init, j, key)
      {
        WholePair(n - 2, j);
      }
      if StripDashes(args[n - 2]) == key {
        assert KeyAt(args, n - 2, key);
      } else {
        forall j | KeyAt(args, j, key)
          ensures j < n - 2
        {
          WholePair(n, j);
        }
      }
    }
  }

  /** Every pair with key `port` carries an integer. */
  predicate PortsNumeric(args: seq<string>) {
    forall j :: 0 <= j < |args| - 1 && KeyAt(args, j, "port") ==> ParseInt(args[j + 1]).Some?
  }

  /** The text a key's last pair gives, or `otherwise` without one. */
  function Or(v: Option<string>, otherwise: string): string {
    match v
    case None => otherwise
    case Some(s) => s
  }

  /** The port a key's last pair gives, or `otherwise` without one. */
  function PortOr(v: Option<string>, otherwise: int): int {
    match v
    case None => otherwise
    case Some(s) => if ParseInt(s).Some? then ParseInt(s).value else otherwise
  }

  /** Each field from the last pair with its key, or from `c` without one. */
  function Resolved(args: seq<string>, c: CliArgs): CliArgs
    requires |args| % 2 == 0
  {
    CliArgs(
      PortOr(LastValue(args, "port"), c.port),
      Or(LastValue(args, "directory"), c.directory),
      Or(LastValue(args, "replicaof"), c.replicaof))
  }

  /** The parse fails, with PortError, exactly when some `port` value is not
      an integer; otherwise every field holds the value of the last pair with
      its key, or its starting value when no pair has the key. */
  lemma {:induction false} ConfigureResult(args: seq<string>, c: CliArgs)
    requires |args| % 2 == 0
    ensures Configure(args, c) ==
      if PortsNumeric(args) then Success(Resolved(args, c)) else Failure(PortError)
    decreases |args|
  {
    if args != [] {
      var n := |args|;
      var init, key, value := args[..n - 2], args[n - 2], args[n - 1];
      assert init + [key, value] == args;
      ConfigureResult(init, c);
      ConfigureLast(init, key, value, c);
      PortsNumericLast(init, key, value);
      if PortsNumeric(init) && !(StripDashes(key) == "port" && ParseInt(value).None?) {
        ResolvedLast(init, key, value, c);
      }
    }
  }

  /** The last pair is applied to whatever the pairs before it produced. */
  lemma ConfigureLast(init: seq<string>, key: string, value: string, c: CliArgs)
    requires |init| % 2 == 0
    ensures Configure(init + [key, value], c) ==
      match Configure(init, c)
      case Failure(e) => Failure(e)
      case Success(m) => Apply(m, key, value)
  {
    ConfigureAppend(init, [key, value], c);
    assert [key, value][2..] == [];
  }

  /** Adding a pair keeps every port numeric unless it adds a bad port. */
  lemma PortsNumericLast(init: seq<string>, key: string, value: string)
    requires |init| % 2 == 0
    ensures PortsNumeric(init + [key, value]) <==>
      PortsNumeric(init) && (StripDashes(key) == "port" ==> ParseInt(value).Some?)
  {
    var args := init + [key, value];
    var n := |args|;
    forall j | 0 <= j < |init| - 1
      ensures KeyAt(init, j, "port") <==> KeyAt(args, j, "port")
      ensures args[j + 1] == init[j + 1]
    {
    }
    if StripDashes(key) == "port" {
      assert KeyAt(args, n - 2, "port");
    }
    if PortsNumeric(init) && (StripDashes(key) == "port" ==> ParseInt(value).Some?) {
      forall j | 0 <= j < n - 1 && KeyAt(args, j, "port")
        ensures ParseInt(args[j + 1]).Some?
      {
        if j < n - 2 {
          assert KeyAt(init, j, "port");
        }
      }
    }
  }

  /** The last value of a key after adding a pair. */
  lemma LastValueLast(init: seq<string>, key: string, value: string, name: string)
    requires |init| % 2 == 0
    ensures LastValue(init + [key, value], name) ==
      if StripDashes(key) == name then Some(value) else LastValue(init, name)
  {
    var args := init + [key, value];
    assert args[..|args| - 2] == init;
  }

  /** Resolving after adding a pair is applying that pair to the resolved
      record. */
  lemma ResolvedLast(init: seq<string>, key: string, value: string, c: CliArgs)
    requires |init| % 2 == 0
    requires !(StripDashes(key) == "port" && ParseInt(value).None?)
    ensures Apply(Resolved(init, c), key, value) == Success(Resolved(init + [key, value], c))
  {
    LastValueLast(init, key, value, "port");
    LastValueLast(init, key, value, "directory");
    LastValueLast(init, key, value, "replicaof");
  }

  /** Applying a concatenation of argument lists is applying the first, then
      the second from where it ended. */
  lemma {:induction false} ConfigureAppend(a: seq<string>, b: seq<string>, c: CliArgs)
    requires |a| % 2 == 0 && |b| % 2 == 0
    ensures Configure(a + b, c) ==
      match Configure(a, c)
      case Failure(e) => Failure(e)
      case Success(m) => Configure(b, m)
    decreases |a|
  {
    if a == [] {
      assert a + b == b;
    } else {
      assert (a + b)[2..] == a[2..] + b;
      match Apply(c, a[0], a[1])
      case Failure(_) =>
      case Success(next) => ConfigureAppend(a[2..], b, next);
    }
  }

  /** A pair whose key is none of the three is skipped: removing it changes
      nothing. */
  lemma UnknownKeyIgnored(a: seq<string>, key: string, value: string, b: seq<string>, c: CliArgs)
    requires |a| % 2 == 0 && |b| % 2 == 0
    requires StripDashes(key) != "port" && StripDashes(key) != "directory" && StripDashes(key) != "replicaof"
    ensures Configure(a + [key, value] + b, c) == Configure(a + b, c)
  {
    ConfigureAppend(a, [key, value] + b, c);
    ConfigureAppend(a, b, c);
    assert a + [key, value] + b == a + ([key, value] + b);
    assert ([key, value] + b)[2..] == b;
  }
}
