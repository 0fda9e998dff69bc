/** The current string calculator: `extractDelimiterAndNumbers`, which reads an
    optional `//<c>\n` header, and `add`, which turns line breaks into the delimiter,
    splits, trims, skips blank tokens and adds up `parseInt` of the others. */
module StringCalculator {
  import opened JsBuiltins

  /** The object `extractDelimiterAndNumbers` returns. */
  datatype ParsedInput = ParsedInput(delimiter: string, numbers: string)

  /** A match of the regular expression `^\/\/(.)\n([\s\S]*)`: two slashes, one
      character that `.` accepts (anything but a line terminator), then a line feed. */
  predicate HasHeader(input: string) {
    |input| >= 4 && input[0] == '/' && input[1] == '/' && !IsLineTerminator(input[2]) && input[3] == '\n'
  }

  /** The default result `{delimiter: ",", numbers: input}`, overwritten by the two
      captured groups when the header matches. The delimiter is always a single
      character other than a line break, and either the input is exactly header plus
      numbers, or nothing was taken from it and the delimiter is the comma. */
  function ExtractDelimiterAndNumbers(input: string): (r: ParsedInput)
    ensures |r.delimiter| == 1 && !IsLineTerminator(r.delimiter[0])
    ensures r.numbers != input <==> HasHeader(input)
    ensures r.numbers != input ==> input == "//" + r.delimiter + "\n" + r.numbers
    ensures r.numbers == input ==> r.delimiter == ","
  {
    var result := ParsedInput(",", input);
    if HasHeader(input) then result.(delimiter := input[2..3], numbers := input[4..]) else result
  }

  /** A header written in front of any numbers text is read back. */
  lemma ExtractDeclared(c: char, rest: string)
    requires !IsLineTerminator(c)
    ensures ExtractDelimiterAndNumbers("//" + [c] + "\n" + rest) == ParsedInput([c], rest)
  {
    var input := "//" + [c] + "\n" + rest;
    assert input[2..3] == [c] && input[4..] == rest;
  }

  /** The extractor on the headers its tests use. */
  lemma ExtractExamples()
    ensures ExtractDelimiterAndNumbers("//;\n1;2;3") == ParsedInput(";", "1;2;3")
    ensures ExtractDelimiterAndNumbers("//;\n") == ParsedInput(";", "")
  {
    ExtractDeclared(';', "1;2;3");
    ExtractDeclared(';', "");
  }

  /** The extractor on inputs without a header that matches: nothing is taken. */
  lemma ExtractNoHeaderExamples()
    ensures ExtractDelimiterAndNumbers("") == ParsedInput(",", "")
    ensures ExtractDelimiterAndNumbers("1,2,3") == ParsedInput(",", "1,2,3")
    ensures ExtractDelimiterAndNumbers("//;1;2;3") == ParsedInput(",", "//;1;2;3")
  {
  }

  /** The extractor on headers of more than one character: nothing is taken. */
  lemma ExtractLongHeaderExamples()
    ensures ExtractDelimiterAndNumbers("//not a delimiter\n1,2,3") == ParsedInput(",", "//not a delimiter\n1,2,3")
    ensures ExtractDelimiterAndNumbers("//***\n1***2***3") == ParsedInput(",", "//***\n1***2***3")
    ensures ExtractDelimiterAndNumbers("//[***]\n1***2***3") == ParsedInput(",", "//[***]\n1***2***3")
  {
  }

  // ---------------------------------------------------------------------------
  // What `add` computes

  /** The remainder once the `while` loop has replaced every line feed by the delimiter. */
  function Normalized(p: ParsedInput): string {
    ReplaceAll(p.numbers, '\n', p.delimiter)
  }

  /** The pieces the `for` loop visits: the normalised remainder split on the delimiter. */
  function Tokens(numbers: string): (r: seq<string>)
    ensures |r| >= 1
  {
    var p := ExtractDelimiterAndNumbers(numbers);
    Split(Normalized(p), p.delimiter[0])
  }

  /** The running sum after the `for` loop has visited `tokens`: a token blank after
      trimming is skipped, any other adds `parseInt` of its trimmed text. */
  function SumTokens(tokens: seq<string>): Option<int> {
    if tokens == [] then Some(0)
    else
      var sum := SumTokens(tokens[..|tokens| - 1]);
      var value := Trim(tokens[|tokens| - 1]);
      if value == "" then sum else Plus(sum, ParseInt(value))
  }

  /** What `add(numbers)` returns; `None` is NaN. */
  function SumOf(numbers: string): Option<int> {
    if numbers == "" then Some(0) else SumTokens(Tokens(numbers))
  }

  /** `add`: the early return on the empty string, the header, the `while` loop that
      replaces one line feed at a time, the split, and the `for` loop that adds up. */
  method Add(numbers: string) returns (sum: Option<int>)
    ensures sum == SumOf(numbers)
  {
    if numbers == "" {
      return Some(0);
    }
    var parsed := ExtractDelimiterAndNumbers(numbers);
    var delimiter, inputString := parsed.delimiter, parsed.numbers;
    assert '\n' !in delimiter by {
      assert delimiter == [delimiter[0]];
    }

    var normalizedInput := inputString;
    while '\n' in normalizedInput
      invariant ReplaceAll(normalizedInput, '\n', delimiter) == ReplaceAll(inputString, '\n', delimiter)
      decreases multiset(normalizedInput)['\n']
    {
      ReplaceFirstProgress(normalizedInput, '\n', delimiter);
      normalizedInput := ReplaceFirst(normalizedInput, '\n', delimiter);
    }
    ReplaceAllAbsent(normalizedInput, '\n', delimiter);

    var numberArray := Split(normalizedInput, delimiter[0]);
    sum := Some(0);
    for i := 0 to |numberArray|
      invariant sum == SumTokens(numberArray[..i])
    {
      SumTokensPrefix(numberArray, i);
      var value := Trim(numberArray[i]);
      if value != "" {
        sum := Plus(sum, ParseInt(value));
      }
    }
    assert numberArray[..|numberArray|] == numberArray;
  }

  // ---------------------------------------------------------------------------
  // Properties of `add`

  /** One step of the `for` loop: the running sum over one more token. */
  lemma SumTokensPrefix(tokens: seq<string>, i: nat)
    requires i < |tokens|
    ensures var value := Trim(tokens[i]);
      SumTokens(tokens[..i + 1]) == if value == "" then SumTokens(tokens[..i]) else Plus(SumTokens(tokens[..i]), ParseInt(value))
  {
    assert tokens[..i + 1][..i] == tokens[..i];
  }

  /** The normalised remainder holds no line feed and is the remainder with each line
      feed, and nothing else, replaced by the delimiter. */
  lemma NormalizedRemainder(input: string)
    ensures var p := ExtractDelimiterAndNumbers(input);
      var r := Normalized(p);
      '\n' !in r && |r| == |p.numbers|
      && forall k :: 0 <= k < |r| ==> r[k] == if p.numbers[k] == '\n' then p.delimiter[0] else p.numbers[k]
  {
    var p := ExtractDelimiterAndNumbers(input);
    assert p.delimiter == [p.delimiter[0]];
    ReplaceAllAt(p.numbers, '\n', p.delimiter);
    ReplaceAllRemoves(p.numbers, '\n', p.delimiter);
  }

  /** A token with something in it that `parseInt` cannot read. */
  predicate IsNaNToken(t: string) {
    Trim(t) != "" && ParseInt(Trim(t)) == None
  }

  /** The running sum is NaN exactly when some token is one that `parseInt` cannot read. */
  lemma {:induction false} SumTokensNaN(tokens: seq<string>)
    ensures SumTokens(tokens) == None <==> SomeToken(tokens, IsNaNToken)
  {
    if tokens != [] {
      var init := tokens[..|tokens| - 1];
      SumTokensNaN(init);
      SumTokensStep(tokens);
      SomeTokenLast(tokens, IsNaNToken);
    }
  }

  lemma SumTokensStep(tokens: seq<string>)
    requires tokens != []
    ensures SumTokens(tokens) == None <==>
      SumTokens(tokens[..|tokens| - 1]) == None || IsNaNToken(tokens[|tokens| - 1])
  {
  }

  /** The tokens that are not blank after trimming, in order. */
  function NonBlank(tokens: seq<string>): seq<string> {
    if tokens == [] then []
    else
      var init := NonBlank(tokens[..|tokens| - 1]);
      if Trim(tokens[|tokens| - 1]) == "" then init else init + [tokens[|tokens| - 1]]
  }

  /** Blank tokens contribute nothing: the sum is the same with them dropped. */
  lemma {:induction false} BlankTokensIgnored(tokens: seq<string>)
    ensures SumTokens(tokens) == SumTokens(NonBlank(tokens))
  {
    if tokens != [] {
      var init := tokens[..|tokens| - 1];
      var last := tokens[|tokens| - 1];
      BlankTokensIgnored(init);
      if Trim(last) != "" {
        var n := NonBlank(init) + [last];
        assert n[..|n| - 1] == NonBlank(init);
      }
    }
  }

  /** Input ending with the active delimiter sums as the input without it: the empty
      last token is skipped. */
  lemma TrailingDelimiterIgnored(s: string)
    ensures SumOf(s + ExtractDelimiterAndNumbers(s).delimiter) == SumOf(s)
  {
    var p := ExtractDelimiterAndNumbers(s);
    var d := p.delimiter;
    ExtractAppendDelimiter(s);
    assert d == [d[0]] && '\n' !in d;
    ReplaceAllConcat(p.numbers, d, '\n', d);
    ReplaceAllAbsent(d, '\n', d);
    var n := Normalized(p);
    assert Normalized(ParsedInput(d, p.numbers + d)) == n + [d[0]] + "";
    SplitConcat(n, d[0], "");
    SumTokensSnoc(Split(n, d[0]), "");
  }

  /** The active delimiter appended to the input is appended to the remainder. */
  lemma ExtractAppendDelimiter(s: string)
    ensures var p := ExtractDelimiterAndNumbers(s);
      ExtractDelimiterAndNumbers(s + p.delimiter) == ParsedInput(p.delimiter, p.numbers + p.delimiter)
  {
    var p := ExtractDelimiterAndNumbers(s);
    var s' := s + p.delimiter;
    if HasHeader(s) {
      assert s'[..4] == s[..4];
      assert s'[4..] == s[4..] + p.delimiter;
    } else {
      assert !HasHeader(s') by {
        if |s| >= 4 { assert s'[..4] == s[..4]; }
        if |s| == 3 { assert s'[3] == ','; }
      }
    }
  }

  /** With no header, a line feed anywhere sums exactly as a comma there would. */
  lemma NewlineActsAsComma(s: string)
    requires !HasHeader(s)
    ensures SumOf(s) == SumOf(ReplaceAll(s, '\n', ","))
  {
    var s' := ReplaceAll(s, '\n', ",");
    ReplaceAllAt(s, '\n', ",");
    ReplaceAllRemoves(s, '\n', ",");
    ReplaceAllAbsent(s', '\n', ",");
    assert !HasHeader(s') by {
      if |s'| >= 4 { assert s'[3] != '\n'; }
    }
    assert s == "" <==> s' == "";
  }

  /** After a header, a line feed anywhere sums exactly as the declared delimiter there
      would. */
  lemma NewlineActsAsDeclaredDelimiter(c: char, rest: string)
    requires !IsLineTerminator(c)
    ensures SumOf("//" + [c] + "\n" + rest) == SumOf("//" + [c] + "\n" + ReplaceAll(rest, '\n', [c]))
  {
    ExtractDeclared(c, rest);
    ExtractDeclared(c, ReplaceAll(rest, '\n', [c]));
    ReplaceAllRemoves(rest, '\n', [c]);
    ReplaceAllAbsent(ReplaceAll(rest, '\n', [c]), '\n', [c]);
  }

  /** A token read as `x` added at the end adds `x` to the running sum. */
  lemma SumTokensReadStep(init: seq<string>, t: string, s: int, x: int)
    requires SumTokens(init) == Some(s)
    requires Trim(t) != "" && ParseInt(Trim(t)) == Some(x)
    ensures SumTokens(init + [t]) == Some(s + x)
  {
    SumTokensSnoc(init, t);
  }

  /** Decimal notations add up to the total of the integers they denote. */
  lemma {:induction false} SumTokensShows(xs: seq<int>)
    ensures SumTokens(Shows(xs)) == Some(Total(xs))
  {
    if xs != [] {
      var n := |xs| - 1;
      SumTokensShows(xs[..n]);
      TrimShow(xs[n]);
      ParseIntShowAlone(xs[n]);
      SumTokensReadStep(Shows(xs[..n]), Show(xs[n]), Total(xs[..n]), xs[n]);
    }
  }

  /** One step of the running sum: a token added at the end. */
  lemma SumTokensSnoc(init: seq<string>, t: string)
    ensures SumTokens(init + [t]) == if Trim(t) == "" then SumTokens(init) else Plus(SumTokens(init), ParseInt(Trim(t)))
  {
    assert (init + [t])[..|init|] == init;
  }

  /** Without a header and without line feeds, `add` splits on the comma. */
  lemma SumOfNoHeader(s: string)
    requires s != "" && !HasHeader(s) && '\n' !in s
    ensures SumOf(s) == SumTokens(Split(s, ','))
  {
    ReplaceAllAbsent(s, '\n', ",");
  }

  /** After a header, and without line feeds, `add` splits on the declared delimiter. */
  lemma SumOfHeader(c: char, rest: string)
    requires !IsLineTerminator(c) && '\n' !in rest
    ensures SumOf("//" + [c] + "\n" + rest) == SumTokens(Split(rest, c))
  {
    ExtractDeclared(c, rest);
    ReplaceAllAbsent(rest, '\n', [c]);
  }

  /** Integers joined by commas add up to their sum: negatives included, and values
      over 1000 too. */
  lemma AddCommaSeparated(xs: seq<int>)
    requires |xs| >= 1
    ensures SumOf(Join(Shows(xs), ',')) == Some(Total(xs))
  {
    var ts := Shows(xs);
    var s := Join(ts, ',');
    SplitShows(xs, ',');
    ShowsAt(xs);
    ShowChars(xs[0]);
    JoinHead(ts, ',');
    SumOfNoHeader(s);
    SumTokensShows(xs);
  }

  /** Integers joined by a declared delimiter add up to their sum. */
  lemma AddWithDeclaredDelimiter(c: char, xs: seq<int>)
    requires |xs| >= 1 && !IsLineTerminator(c) && !IsDecimalDigit(c)
    requires c == '-' ==> forall k :: 0 <= k < |xs| ==> xs[k] >= 0
    ensures SumOf("//" + [c] + "\n" + Join(Shows(xs), c)) == Some(Total(xs))
  {
    SplitShows(xs, c);
    SumOfHeader(c, Join(Shows(xs), c));
    SumTokensShows(xs);
  }

  /** The sums the tests expect of the empty string and of an empty list after a header. */
  lemma AddExamplesEmpty()
    ensures SumOf("") == Some(0)
    ensures SumOf("//;\n") == Some(0)
  {
    SumOfHeader(';', "");
  }

  /** The sum the tests expect of a comma-separated list. */
  lemma AddExampleCommas()
    ensures SumOf("1,2,3") == Some(6)
  {
    AddCommaSeparated([1, 2, 3]);
    ShowsOneTwoThree();
    TotalOneTwoThree();
    assert Join(["1", "2", "3"], ',') == "1,2,3" by {
      assert Join(["2", "3"], ',') == "2,3";
    }
  }

  /** The sum the tests expect when a line feed separates numbers. */
  lemma AddExampleNewline()
    ensures SumOf("1\n2,3") == Some(6)
  {
    AddExampleCommas();
    NewlineActsAsComma("1\n2,3");
    ReplaceAllAt("1\n2,3", '\n', ",");
  }

  /** The sum the tests expect when a line feed stands for the declared delimiter. */
  lemma AddExampleDeclaredNewline()
    ensures SumOf("//;\n1;2\n3") == Some(6)
  {
    ReplaceExample();
    HeaderExample();
    DeclaredNewlineBridge(';', "1;2\n3", "1;2;3");
    AddExampleDeclared();
  }

  lemma HeaderExample()
    ensures "//;\n1;2\n3" == "//" + [';'] + "\n" + "1;2\n3"
    ensures "//;\n1;2;3" == "//" + [';'] + "\n" + "1;2;3"
  {
  }

  lemma DeclaredNewlineBridge(c: char, rest: string, rest': string)
    requires !IsLineTerminator(c) && ReplaceAll(rest, '\n', [c]) == rest'
    ensures SumOf("//" + [c] + "\n" + rest) == SumOf("//" + [c] + "\n" + rest')
  {
    NewlineActsAsDeclaredDelimiter(c, rest);
  }

  lemma ReplaceExample()
    ensures ReplaceAll("1;2\n3", '\n', ";") == "1;2;3"
  {
    ReplaceAllAt("1;2\n3", '\n', ";");
  }

  /** The sum the tests expect with a declared delimiter. */
  lemma AddExampleDeclared()
    ensures SumOf("//;\n1;2;3") == Some(6)
  {
    AddWithDeclaredDelimiter(';', [1, 2, 3]);
    ShowsOneTwoThree();
    TotalOneTwoThree();
    JoinSemicolons();
    HeaderExample();
  }

  lemma JoinSemicolons()
    ensures Join(["1", "2", "3"], ';') == "1;2;3"
  {
    assert Join(["2", "3"], ';') == "2;3";
  }

  /** The sum the tests expect with `-` declared as the delimiter. */
  lemma AddExampleDashDelimiter()
    ensures SumOf("//-\n5-10-15") == Some(30)
  {
    AddWithDeclaredDelimiter('-', [5, 10, 15]);
    ShowsFiveTenFifteen();
    TotalFiveTenFifteen();
    JoinDashes();
    DashHeaderExample();
  }

  lemma ShowsFiveTenFifteen()
    ensures Shows([5, 10, 15]) == ["5", "10", "15"]
  {
    ShowsAt([5, 10, 15]);
    assert Digits(1) == "1";
    assert Show(5) == "5" && Show(10) == "10" && Show(15) == "15";
  }

  lemma TotalFiveTenFifteen()
    ensures Total([5, 10, 15]) == 30
  {
    assert [5, 10, 15][..2] == [5, 10] && [5, 10][..1] == [5] && [5][..0] == [];
  }

  lemma JoinDashes()
    ensures Join(["5", "10", "15"], '-') == "5-10-15"
  {
    assert Join(["10", "15"], '-') == "10-15";
  }

  lemma DashHeaderExample()
    ensures "//-\n5-10-15" == "//" + ['-'] + "\n" + "5-10-15"
  {
  }

  /** Where the code parts from its tests: negatives are added like any number. */
  lemma AddExampleNegatives()
    ensures SumOf("-1,2,-3,4") == Some(2)
  {
    AddCommaSeparated([-1, 2, -3, 4]);
    ShowsNegatives();
    TotalNegatives();
    JoinNegatives();
  }

  lemma ShowsNegatives()
    ensures Shows([-1, 2, -3, 4]) == ["-1", "2", "-3", "4"]
  {
    ShowsAt([-1, 2, -3, 4]);
    assert Show(-1) == "-1" && Show(-3) == "-3";
    assert Show(2) == "2" && Show(4) == "4";
  }

  lemma TotalNegatives()
    ensures Total([-1, 2, -3, 4]) == 2
  {
    assert [-1, 2, -3, 4][..3] == [-1, 2, -3] && [-1, 2, -3][..2] == [-1, 2];
    assert [-1, 2][..1] == [-1] && [-1][..0] == [];
  }

  lemma JoinNegatives()
    ensures Join(["-1", "2", "-3", "4"], ',') == "-1,2,-3,4"
  {
    assert Join(["-3", "4"], ',') == "-3,4";
    assert Join(["2", "-3", "4"], ',') == "2,-3,4";
  }

  /** Where the code parts from its tests: values over 1000 are added too. */
  lemma AddExampleOverThousand()
    ensures SumOf("2,1000,1001") == Some(2003)
  {
    AddCommaSeparated([2, 1000, 1001]);
    ShowsThousands();
    TotalThousands();
    JoinThousands();
  }

  lemma ShowsThousands()
    ensures Shows([2, 1000, 1001]) == ["2", "1000", "1001"]
  {
    ShowsAt([2, 1000, 1001]);
    ShowThousand();
    assert Show(2) == "2";
  }

  lemma ShowThousand()
    ensures Show(1000) == "1000" && Show(1001) == "1001"
  {
    assert Digits(1) == "1";
    assert Digits(10) == "10";
    assert Digits(100) == "100";
  }

  lemma TotalThousands()
    ensures Total([2, 1000, 1001]) == 2003
  {
    assert [2, 1000, 1001][..2] == [2, 1000] && [2, 1000][..1] == [2] && [2][..0] == [];
  }

  lemma JoinThousands()
    ensures Join(["2", "1000", "1001"], ',') == "2,1000,1001"
  {
    assert Join(["1000", "1001"], ',') == "1000,1001";
  }

  /** Input that starts with `/` without a header that matches, a bracketed
      `//[***]\n` one say, adds up to NaN: its first token starts with `/`, which
      `parseInt` cannot read. */
  lemma UnmatchedHeaderIsNaN(s: string)
    requires s != "" && s[0] == '/' && !HasHeader(s)
    ensures SumOf(s) == None
  {
    var n := ReplaceAll(s, '\n', ",");
    ReplaceAllHead(s, '\n', ",");
    SplitHead(n, ',');
    var ts := Tokens(s);
    assert ts == Split(n, ',');
    TrimHead(ts[0]);
    ParseIntNonNumeric(Trim(ts[0]));
    assert IsNaNToken(ts[0]);
    assert SomeToken(ts, IsNaNToken);
    SumTokensNaN(ts);
  }

  /** The bracketed multi-character header of the tests gives NaN. */
  lemma AddOnBracketedHeader()
    ensures SumOf("//[***]\n1***2***3") == None
  {
    UnmatchedHeaderIsNaN("//[***]\n1***2***3");
  }
}
