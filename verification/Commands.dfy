/**
 * DumpRenderTreeCommon.cpp: the command lines of the test runner, whose parts are separated by quote marks.
 */
module Commands {
  import opened Options
  import opened Decimals

  const SEPARATOR: char := '\''

  // ---------------------------------------------------------------- splitting

  /** The first position of `c` in `s` at or after `from`. */
  function Find(s: string, c: char, from: nat): (r: Option<nat>)
    requires from <= |s|
    ensures r.None? ==> c !in s[from..]
    ensures r.Some? ==> from <= r.value < |s| && s[r.value] == c && c !in s[from..r.value]
    decreases |s| - from
  {
    if from == |s| then None
    else if s[from] == c then Some(from)
    else
      var r := Find(s, c, from + 1);
      assert s[from..] == [s[from]] + s[from + 1..];
      assert r.Some? ==> s[from..r.value] == [s[from]] + s[from + 1..r.value];
      r
  }

  /** The pieces between separators; there is one more than there are separators. */
  function Split(s: string): seq<string> {
    var i := Find(s, SEPARATOR, 0);
    if i.None? then [s] else [s[..i.value]] + Split(s[i.value + 1..])
  }

  function NonEmptyPrefix(pieces: seq<string>): seq<string> {
    if pieces == [] || pieces[0] == [] then [] else [pieces[0]] + NonEmptyPrefix(pieces[1..])
  }

  /** The tokens of a line: its pieces up to the first empty one. */
  function Tokens(line: string): seq<string> {
    NonEmptyPrefix(Split(line))
  }

  function Join(tokens: seq<string>): string {
    if tokens == [] then [] else if |tokens| == 1 then tokens[0] else tokens[0] + [SEPARATOR] + Join(tokens[1..])
  }

  ghost predicate Plain(s: string) {
    s != [] && SEPARATOR !in s
  }

  lemma FindIs(s: string, i: nat)
    requires i < |s| && s[i] == SEPARATOR && SEPARATOR !in s[..i]
    ensures Find(s, SEPARATOR, 0) == Some(i)
  {
    var r := Find(s, SEPARATOR, 0);
    assert s[0..] == s;
  }

  lemma FindNone(s: string)
    requires SEPARATOR !in s
    ensures Find(s, SEPARATOR, 0) == None
  {
  }

  /** A line without separators is one token, or none. */
  lemma TokensLast(s: string)
    requires SEPARATOR !in s
    ensures Tokens(s) == if s == [] then [] else [s]
  {
    FindNone(s);
    var pieces: seq<string> := [s];
    assert Split(s) == pieces && NonEmptyPrefix(pieces[1..]) == [];
  }

  /** The part before the first separator is the first token, unless it is empty. */
  lemma TokensCons(head: string, tail: string)
    requires SEPARATOR !in head
    ensures Tokens(head + [SEPARATOR] + tail) == if head == [] then [] else [head] + Tokens(tail)
  {
    var s := head + [SEPARATOR] + tail;
    assert s[..|head|] == head && s[|head| + 1..] == tail;
    FindIs(s, |head|);
    assert Split(s) == [head] + Split(tail) && ([head] + Split(tail))[1..] == Split(tail);
  }

  /** A position in a line: that of a separator, or 0 before anything has been read. */
  predicate IsPosition(line: string, pos: nat) {
    pos < |line| || (line == [] && pos == 0)
  }

  function StartAfter(line: string, pos: nat): (start: nat)
    requires IsPosition(line, pos)
    ensures start <= |line|
  {
    if pos != 0 then pos + 1 else 0
  }

  /** The tokens after a position; there are none after the end. */
  function TokensAfter(line: string, pos: Option<nat>): seq<string>
    requires pos.Some? ==> IsPosition(line, pos.value)
  {
    if pos.None? then [] else Tokens(line[StartAfter(line, pos.value)..])
  }

  /** The piece from `start` to the next separator is the next token, unless it is empty. */
  lemma TokensFrom(line: string, start: nat, pos: Option<nat>, next: string)
    requires start <= |line| && pos == Find(line, SEPARATOR, start)
    requires next == if pos.None? then line[start..] else line[start..pos.value]
    ensures Tokens(line[start..]) == if next == [] then [] else [next] + TokensAfter(line, pos)
    ensures next != [] && pos.Some? ==> pos.value > 0
  {
    if pos.None? {
      TokensLast(next);
    } else {
      CutAt(line, start, pos.value);
      TokensCons(next, line[pos.value + 1..]);
      assert next != [] ==> StartAfter(line, pos.value) == pos.value + 1;
    }
  }

  lemma CutAt(line: string, start: nat, p: nat)
    requires start <= p < |line|
    ensures line[start..] == line[start..p] + [line[p]] + line[p + 1..]
  {
  }

  /** Splitting undoes joining, for tokens that are not empty and hold no separator. */
  lemma {:induction false} TokensOfJoin(tokens: seq<string>)
    requires forall t :: t in tokens ==> Plain(t)
    ensures Tokens(Join(tokens)) == tokens
  {
    if tokens == [] {
      TokensLast([]);
    } else {
      var t := tokens[0];
      assert Plain(t);
      if |tokens| == 1 {
        TokensLast(t);
        assert tokens == [t];
      } else {
        TokensOfJoin(tokens[1..]);
        TokensCons(t, Join(tokens[1..]));
        assert tokens == [t] + tokens[1..];
      }
    }
  }

  // ---------------------------------------------------------------- the tokenizer

  class CommandTokenizer {
    const input: string
    var next: string
    var posNextSeparator: Option<nat>  // None is npos

    ghost predicate Positioned()
      reads this
    {
      posNextSeparator.Some? ==> IsPosition(input, posNextSeparator.value)
    }

    /** A token that is ready ends at the end of the input or at a separator after its start. */
    ghost predicate Valid()
      reads this
    {
      Positioned() && (next != [] && posNextSeparator.Some? ==> posNextSeparator.value > 0)
    }

    /** The tokens that are still to come. */
    ghost function Remaining(): seq<string>
      requires Valid()
      reads this
    {
      if next == [] then [] else [next] + TokensAfter(input, posNextSeparator)
    }

    constructor (line: string)
      ensures Valid() && input == line && Remaining() == Tokens(line)
    {
      input := line;
      next := [];
      posNextSeparator := Some(0);
      new;
      assert line[0..] == line;
      Pump();
    }

    method Pump()
      requires Positioned()
      modifies this
      ensures Valid() && Remaining() == old(TokensAfter(input, posNextSeparator))
    {
      if posNextSeparator.None? || posNextSeparator.value == |input| {
        next := [];
        TokensLast([]);
        return;
      }
      var start := StartAfter(input, posNextSeparator.value);
      posNextSeparator := Find(input, SEPARATOR, start);
      next := if posNextSeparator.None? then input[start..] else input[start..posNextSeparator.value];
      TokensFrom(input, start, posNextSeparator, next);
    }

    predicate HasNext()
      reads this
    {
      next != []
    }

    method Next() returns (token: string)
      requires Valid() && HasNext()
      modifies this
      ensures Valid() && old(Remaining()) == [token] + Remaining()
    {
      token := next;
      Pump();
    }
  }

  // ---------------------------------------------------------------- commands

  /** A test to run: its path, whether and how to dump pixels, and its time limit in milliseconds. */
  datatype TestCommand = TestCommand(pathOrURL: string, shouldDumpPixels: bool, expectedPixelHash: string, timeout: int)

  /** The runner exits on a malformed line, and asserts that there is a token after `--timeout`. */
  datatype Outcome = Parsed(command: TestCommand) | Dies | AssertionFails

  const TIMEOUT := "--timeout"
  const PIXEL_TEST := "--pixel-test"

  predicate IsSpace(c: char) {
    c in {' ', '\t', '\n', '\r', 11 as char, 12 as char}
  }

  function LeadingDigits(s: string): (d: string)
    ensures AllDigits(d)
  {
    if s != [] && IsDigit(s[0]) then [s[0]] + LeadingDigits(s[1..]) else []
  }

  /** `atoi`, on numbers that fit an int: white space, a sign, digits. */
  function Atoi(s: string): int {
    if s == [] then 0
    else if IsSpace(s[0]) then Atoi(s[1..])
    else if s[0] == '-' then 0 - Value(LeadingDigits(s[1..]))
    else if s[0] == '+' then Value(LeadingDigits(s[1..]))
    else Value(LeadingDigits(s))
  }

  function IntText(n: int): string {
    if n < 0 then "-" + Numeral(-n) else Numeral(n)
  }

  lemma {:induction false} LeadingDigitsOf(s: string)
    requires AllDigits(s)
    ensures LeadingDigits(s) == s
  {
    if s != [] {
      assert s[0] in s;
      LeadingDigitsOf(s[1..]);
    }
  }

  lemma AtoiReadsNumeral(n: nat)
    ensures Atoi(Numeral(n)) == n && Atoi("-" + Numeral(n)) == 0 - n && Plain(Numeral(n))
  {
    var s := Numeral(n);
    NumeralValue(n);
    LeadingDigitsOf(s);
    assert IsDigit(s[0]) by {
      assert s[0] in s;
    }
    assert ("-" + s)[1..] == s;
  }

  lemma AtoiReads(n: int)
    ensures Atoi(IntText(n)) == n && Plain(IntText(n))
  {
    AtoiReadsNumeral(if n < 0 then -n else n);
  }

  /** What the tokens after the path say. */
  function ParseArguments(tokens: seq<string>, command: TestCommand): Outcome
    decreases |tokens|
  {
    if tokens == [] then Parsed(command)
    else if tokens[0] == TIMEOUT then
      if |tokens| == 1 then AssertionFails
      else ParseArguments(tokens[2..], command.(timeout := Atoi(tokens[1])))
    else if tokens[0] == "-p" || tokens[0] == PIXEL_TEST then
      if |tokens| == 1 then Parsed(command.(shouldDumpPixels := true))
      else ParseArguments(tokens[2..], command.(shouldDumpPixels := true, expectedPixelHash := tokens[1]))
    else Dies
  }

  function ParseTokens(tokens: seq<string>): Outcome {
    if tokens == [] then Dies
    else ParseArguments(tokens[1..], TestCommand(tokens[0], false, [], 30000))
  }

  lemma ArgumentStep(arg: string, rest: seq<string>, c: TestCommand)
    ensures var r := ParseArguments([arg] + rest, c);
      if arg == TIMEOUT then
        r == if rest == [] then AssertionFails else ParseArguments(rest[1..], c.(timeout := Atoi(rest[0])))
      else if arg == "-p" || arg == PIXEL_TEST then
        r == if rest == [] then Parsed(c.(shouldDumpPixels := true))
             else ParseArguments(rest[1..], c.(shouldDumpPixels := true, expectedPixelHash := rest[0]))
      else r == Dies
  {
    if rest != [] {
      assert ([arg] + rest)[2..] == rest[1..];
    }
  }

  /** `parseInputLine`. */
  method ParseInputLine(inputLine: string) returns (outcome: Outcome)
    ensures outcome == ParseTokens(Tokens(inputLine))
  {
    var tokenizer := new CommandTokenizer(inputLine);
    if !tokenizer.HasNext() {
      return Dies;
    }
    var arg := tokenizer.Next();
    var result := TestCommand(arg, false, [], 30000);
    while tokenizer.HasNext()
      invariant fresh(tokenizer) && tokenizer.Valid()
      invariant ParseArguments(tokenizer.Remaining(), result) == ParseTokens(Tokens(inputLine))
      decreases |tokenizer.Remaining()|
    {
      arg := tokenizer.Next();
      ArgumentStep(arg, tokenizer.Remaining(), result);
      if arg == TIMEOUT {
        if !tokenizer.HasNext() {
          return AssertionFails;
        }
        var timeoutToken := tokenizer.Next();
        result := result.(timeout := Atoi(timeoutToken));
      } else if arg == "-p" || arg == PIXEL_TEST {
        result := result.(shouldDumpPixels := true);
        if tokenizer.HasNext() {
          var hash := tokenizer.Next();
          result := result.(expectedPixelHash := hash);
        }
      } else {
        return Dies;
      }
    }
    outcome := Parsed(result);
  }

  // ---------------------------------------------------------------- lines as they are written

  /** A path alone: no pixels, no hash, and thirty seconds. */
  lemma BarePath(path: string)
    requires '\'' !in path
    ensures ParseTokens(Tokens(path)) == if path == "" then Dies else Parsed(TestCommand(path, false, "", 30000))
  {
    TokensLast(path);
  }

  /** What a path and one or two more tokens are parsed to. */
  lemma LineOf(path: string, option: string, argument: string)
    requires Plain(path) && Plain(option) && Plain(argument)
    ensures ParseTokens(Tokens(path + "'" + option))
         == ParseArguments([option], TestCommand(path, false, "", 30000))
    ensures ParseTokens(Tokens(path + "'" + option + "'" + argument))
         == ParseArguments([option, argument], TestCommand(path, false, "", 30000))
  {
    var one, two: seq<string> := [path, option], [path, option, argument];
    assert one[1..] == [option] && two[1..] == [option, argument] && two[1..][1..] == [argument];
    assert Join(one) == path + "'" + option;
    assert Join(two[1..]) == option + "'" + argument;
    assert Join(two) == path + "'" + option + "'" + argument;
    TokensOfJoin(one);
    TokensOfJoin(two);
  }

  // The options, as they are spelled.

  lemma TimeoutLine(path: string, text: string)
    requires Plain(path) && Plain(text)
    ensures ParseTokens(Tokens(path + "'" + "--timeout")) == AssertionFails
    ensures ParseTokens(Tokens(path + "'" + "--timeout" + "'" + text))
         == Parsed(TestCommand(path, false, "", Atoi(text)))
  {
    LineOf(path, "--timeout", text);
    assert ["--timeout", text][2..] == [];
  }

  lemma PixelLine(path: string, option: string, hash: string)
    requires Plain(path) && Plain(hash) && (option == "-p" || option == "--pixel-test")
    ensures ParseTokens(Tokens(path + "'" + option)) == Parsed(TestCommand(path, true, "", 30000))
    ensures ParseTokens(Tokens(path + "'" + option + "'" + hash)) == Parsed(TestCommand(path, true, hash, 30000))
  {
    LineOf(path, option, hash);
    assert [option, hash][2..] == [];
  }

  /** Anything else is not understood. */
  lemma OtherOption(path: string, option: string)
    requires Plain(path) && Plain(option) && option !in {"--timeout", "-p", "--pixel-test"}
    ensures ParseTokens(Tokens(path + "'" + option)) == Dies
  {
    LineOf(path, option, option);
  }

  /** A sign before a number is read, and what comes after its digits is not. */
  lemma AtoiReadsOn(s: string, rest: string)
    requires s != "" && AllDigits(s) && (rest == "" || !IsDigit(rest[0]))
    ensures Atoi(s + rest) == Value(s)
    ensures Atoi("+" + (s + rest)) == Value(s) && Atoi("-" + (s + rest)) == 0 - Value(s)
  {
    DigitsThen(s, rest);
    assert IsDigit((s + rest)[0]) by {
      assert s[0] in s;
    }
    Signed(s + rest);
  }

  lemma Signed(s: string)
    ensures Atoi("+" + s) == Value(LeadingDigits(s)) && Atoi("-" + s) == 0 - Value(LeadingDigits(s))
  {
    assert ("+" + s)[1..] == s && ("-" + s)[1..] == s;
  }

  lemma {:induction false} DigitsThen(s: string, rest: string)
    requires AllDigits(s) && (rest == "" || !IsDigit(rest[0]))
    ensures LeadingDigits(s + rest) == s
    decreases s
  {
    if s == [] {
      assert s + rest == rest;
    } else {
      assert s[0] in s && (s + rest)[1..] == s[1..] + rest;
      DigitsThen(s[1..], rest);
      assert s == [s[0]] + s[1..];
    }
  }

  /** White space before it is passed over. */
  lemma {:induction false} AtoiPasses(blanks: string, s: string)
    requires forall i :: 0 <= i < |blanks| ==> blanks[i] in {' ', '\t', '\n', '\r', 11 as char, 12 as char}
    ensures Atoi(blanks + s) == Atoi(s)
    decreases blanks
  {
    if blanks == [] {
      assert blanks + s == s;
    } else {
      assert (blanks + s)[1..] == blanks[1..] + s;
      AtoiPasses(blanks[1..], s);
    }
  }

  // ---------------------------------------------------------------- round trip

  /** A command that can be written on a line: a hash is there only if pixels are to be dumped. */
  ghost predicate Printable(c: TestCommand) {
    && Plain(c.pathOrURL)
    && (c.expectedPixelHash != [] ==> c.shouldDumpPixels && Plain(c.expectedPixelHash))
  }

  function CommandTokens(c: TestCommand): seq<string> {
    [c.pathOrURL, TIMEOUT, IntText(c.timeout)]
    + (if c.shouldDumpPixels then [PIXEL_TEST] else [])
    + (if c.expectedPixelHash != [] then [c.expectedPixelHash] else [])
  }

  function Print(c: TestCommand): string {
    Join(CommandTokens(c))
  }

  /** A printed command is parsed back. */
  lemma PrintRoundTrip(c: TestCommand)
    requires Printable(c)
    ensures ParseTokens(Tokens(Print(c))) == Parsed(c)
  {
    var tokens := CommandTokens(c);
    AtoiReads(c.timeout);
    assert Plain(TIMEOUT) && Plain(PIXEL_TEST);
    TokensOfJoin(tokens);
    var start := TestCommand(c.pathOrURL, false, [], 30000);
    var more := tokens[3..];
    assert tokens[1..] == [TIMEOUT] + ([IntText(c.timeout)] + more);
    ArgumentStep(TIMEOUT, [IntText(c.timeout)] + more, start);
    assert ([IntText(c.timeout)] + more)[1..] == more;
    if c.expectedPixelHash != [] {
      assert more == [PIXEL_TEST] + [c.expectedPixelHash] && [c.expectedPixelHash][1..] == [];
      ArgumentStep(PIXEL_TEST, [c.expectedPixelHash], start.(timeout := c.timeout));
    } else if c.shouldDumpPixels {
      assert more == [PIXEL_TEST] + [];
      ArgumentStep(PIXEL_TEST, [], start.(timeout := c.timeout));
    } else {
      assert more == [];
    }
  }
}
