# String calculator, modelled in Dafny

The repository is a "string calculator" kata written in JavaScript. It holds two
versions of `add(numbers)`, which turn a string of delimited numbers into their sum.

- `src/main.js` is the current version. `extractDelimiterAndNumbers` reads an
  optional header `//<c>\n` that declares a one-character delimiter. `add` then does
  four things: it returns 0 for the empty string; it replaces the line feeds one at a
  time in a `while` loop; it splits on the delimiter; and in a `for` loop it trims
  each token, skips blank ones and adds `parseInt` of the rest.
- `main.js` is the first version. It splits on commas and folds `sum + parseInt(piece)`
  from 0.

The project has four modules:

- `JsBuiltins` (`js_builtins.dfy`) models the ECMAScript built-ins the calculator
  relies on: `trim`, `split` with a one-character separator, `indexOf`, `includes`
  and `replace` with a one-character pattern, `parseInt` without a radix, and Number
  addition with NaN. A JavaScript string is a `seq<char>`. NaN is `None` of an
  `Option<int>`, and `Plus` makes it absorbing.
- `StringCalculator` (`string_calculator.dfy`) models `src/main.js`:
  - `ExtractDelimiterAndNumbers` is a function. The regular expression
    `^\/\/(.)\n([\s\S]*)` becomes index checks (`HasHeader`).
  - `add` is the method `Add`. It keeps both loops: a `while` loop over
    `ReplaceFirst`, and a `for` loop over the split tokens. Its postcondition ties
    the result to the specification function `SumOf`. Properties of `SumOf` are
    proved as lemmas.
- `FirstStringCalculator` (`first_calculator.dfy`) models `main.js`. Its `add` is
  the pure function `Add` over the fold `Reduce`.
- `CalculatorVersions` (`versions.dfy`) compares the two versions.

Partners used by the proofs:

- `Join` is the inverse of `Split`.
- `Show`, the decimal notation of an integer, is read back by `ParseInt`.
- `ReplaceAll` is what the `replace` loop converges to.
- `Total` is the arithmetic sum the calculators should reach.

The repository's tests expect three features:

- bracketed multi-character delimiters (`//[***]\n`), at test/main.test.js:61-83
  and 192-224;
- an error for negative numbers, at test/main.test.js:154-168 and 212-215;
- dropping values over 1000, at test/main.test.js:170-190 and 217-220.

`src/main.js` implements none of them. The model follows the code. The example lemmas
show what the code really does on the tests' inputs:

- `AddExampleNegatives`: negatives are summed.
- `AddExampleOverThousand`: values over 1000 are kept.
- `AddOnBracketedHeader`: a bracketed header gives NaN.

## Model

| member | source | states |
|---|---|---|
| `JsBuiltins.Trim` | src/main.js:22 | `element.trim()`: the token without its leading and trailing white space, never longer than the token (pinned down by `TrimStartDrops`, `TrimEndDrops` and `TrimSpec`). |
| `JsBuiltins.TrimStartDrops` | src/main.js:22 | The leading part `trim` removes is all white space, and what is left starts with a character that is not white space. |
| `JsBuiltins.TrimEndDrops` | src/main.js:22 | The trailing part `trim` removes is all white space, and what is left ends with a character that is not white space. |
| `JsBuiltins.TrimSpec` | src/main.js:22-23 | `trim` gives `""` exactly when the token is all white space; otherwise the result begins and ends with a character that is not white space. |
| `JsBuiltins.TrimHead` | src/main.js:22-23 | A token whose first character is not white space trims to a non-empty string that starts with that character. |
| `JsBuiltins.Split` | src/main.js:17 | `split` on a one-character separator: the pieces between separators, in order, always at least one (pinned down by `JoinSplit` and `SplitPiecesAvoid`). |
| `JsBuiltins.SplitPiecesAvoid` | src/main.js:17 | No piece of `split(sep)` contains the separator. |
| `JsBuiltins.SplitCount` | src/main.js:17 | `split` yields one more piece than there are separators in the string. |
| `JsBuiltins.SplitHead` | src/main.js:17 | The first piece starts with the string's first character when that character is not the separator. |
| `JsBuiltins.JoinSplit` | main.js:8 | Joining the pieces of `split(sep)` with `sep` gives back the original string. |
| `JsBuiltins.SplitJoin` | main.js:8 | Pieces free of the separator, joined and split again, come back unchanged. |
| `JsBuiltins.SplitWithoutSeparator` | main.js:8 | A string without the separator splits into itself alone. |
| `JsBuiltins.SplitConcat` | src/main.js:17 | Splitting `a + sep + b` gives the pieces of `a` followed by the pieces of `b`. |
| `JsBuiltins.JoinAvoids` | main.js:8 | A character that is neither the separator nor in any piece is not in the joined string. |
| `JsBuiltins.IndexOf` | src/main.js:12-13 | The position found is -1 or an index that holds the character. |
| `JsBuiltins.IndexOfFirst` | src/main.js:12-13 | `indexOf` is -1 exactly when the character is absent (`includes` is false); otherwise no earlier position holds it. |
| `JsBuiltins.ReplaceFirst` | src/main.js:13 | `replace` with a one-character pattern: with the pattern absent the string comes back unchanged; otherwise the string is split at the first occurrence, the part before it and the part after it kept, and the replacement (taken literally) put between them, so the length changes by the replacement's length minus one. |
| `JsBuiltins.ReplaceFirstProgress` | src/main.js:12-14 | One `replace` of a present line feed, with a replacement that has none, removes exactly one line feed and leaves the fully replaced string unchanged. |
| `JsBuiltins.ReplaceAllAbsent` | src/main.js:12-14 | With no line feed left, replacing changes nothing. |
| `JsBuiltins.ReplaceAllRemoves` | src/main.js:12-14 | When the replacement holds no line feed, neither does the result. |
| `JsBuiltins.ReplaceAllAt` | src/main.js:11-14 | With a one-character replacement, the length is kept: each line feed becomes that character and every other character stays at its index. |
| `JsBuiltins.ReplaceAllConcat` | src/main.js:11-14 | Replacing every line feed distributes over concatenation. |
| `JsBuiltins.LeadingDigitsSpec` | src/main.js:24 | The digit run `parseInt` reads is a prefix made of digits, and no digit follows it. |
| `JsBuiltins.ParseInt` | src/main.js:24 | `parseInt` without a radix: leading white space skipped, an optional sign, a `0x`/`0X` prefix for base 16, then the longest run of digits; a string that is empty or all white space is NaN. |
| `JsBuiltins.Plus` | src/main.js:24 | Number `+`: NaN exactly when either side is NaN, and otherwise the sum. |
| `JsBuiltins.ParseIntShow` | src/main.js:24 | `parseInt` reads back the decimal notation of any integer, sign included. It ignores what follows, provided that does not start with a digit, nor with `x` or `X` after the lone digit `0` (which would read as a hexadecimal prefix). |
| `JsBuiltins.ParseIntShowAlone` | main.js:12 | `parseInt` of the decimal notation of `i` is `i`. |
| `JsBuiltins.ParseIntNonNumeric` | src/main.js:24 | A string starting with a character that is not white space, a sign or a digit parses to NaN. |
| `JsBuiltins.ParseIntNoDigits` | main.js:12 | A string with no decimal digit, the empty string included, parses to NaN. |
| `JsBuiltins.ParseIntTrim` | src/main.js:22-24 | `parseInt` of a trimmed token equals `parseInt` of the untrimmed token. |
| `StringCalculator.ExtractDelimiterAndNumbers` | src/main.js:36-53 | The delimiter is one character that is not a line terminator. The input is changed exactly when the header matches, and then it is header + delimiter + line feed + numbers. Otherwise the delimiter is `","`. |
| `StringCalculator.ExtractDeclared` | src/main.js:43-50 | After a header `//c\n`, with `c` not a line terminator, the delimiter is `c` and the numbers are the rest. |
| `StringCalculator.ExtractExamples` | src/main.js:43-50 | `"//;\n1;2;3"` gives `;` and `"1;2;3"`; `"//;\n"` gives `;` and `""`. |
| `StringCalculator.ExtractNoHeaderExamples` | src/main.js:37-46 | `""`, `"1,2,3"` and `"//;1;2;3"` come back unchanged with delimiter `","`. |
| `StringCalculator.ExtractLongHeaderExamples` | src/main.js:43-46 | Headers of more than one character, bracketed or not, do not match, so the input comes back unchanged with `","`. |
| `StringCalculator.Tokens` | src/main.js:8-17 | The tokens the `for` loop visits: the numbers after the header, every line feed replaced by the delimiter, split on the delimiter; always at least one. |
| `StringCalculator.SumTokens` | src/main.js:20-26 | The running sum of the `for` loop over the tokens, from 0: a token blank after trimming is skipped, any other adds `parseInt` of its trimmed text (NaN absorbing). |
| `StringCalculator.SumOf` | src/main.js:1-29 | What `add` returns: 0 for `""`, otherwise the running sum over the tokens. The specification `Add` is proved against. |
| `StringCalculator.Add` | src/main.js:1-29 | The method, with its `while` and `for` loops, returns `SumOf(numbers)`. The `while` loop terminates because each pass removes one line feed. |
| `StringCalculator.SumTokensPrefix` | src/main.js:20-26 | One pass of the `for` loop: a blank trimmed token leaves the sum unchanged, and any other token adds its `parseInt`. |
| `StringCalculator.NormalizedRemainder` | src/main.js:11-14 | After the `while` loop the remainder holds no line feed, has the same length, and has each line feed, and nothing else, replaced by the delimiter. |
| `StringCalculator.SumTokensNaN` | src/main.js:20-26 | The sum is NaN exactly when some token is non-blank after trimming and `parseInt` cannot read it. |
| `StringCalculator.SumTokensStep` | src/main.js:22-24 | Adding a token gives NaN exactly when the sum before was NaN or that token is unreadable. |
| `StringCalculator.BlankTokensIgnored` | src/main.js:21-25 | The sum is the same with every blank token dropped. |
| `StringCalculator.SumTokensSnoc` | src/main.js:21-25 | A token added at the end changes the sum by nothing if it is blank, and otherwise by its `parseInt`. |
| `StringCalculator.SumTokensReadStep` | src/main.js:22-24 | A token that `parseInt` reads as `x`, added at the end, adds `x` to the sum. |
| `StringCalculator.SumTokensShows` | src/main.js:20-26 | Tokens written in decimal notation add up to the arithmetic total of their integers. |
| `StringCalculator.ExtractAppendDelimiter` | src/main.js:43-50 | Appending the active delimiter to any input, the empty one included, appends it to the numbers and keeps the delimiter. |
| `StringCalculator.TrailingDelimiterIgnored` | src/main.js:17-25 | Any input, the empty one included, sums the same with the active delimiter appended. |
| `StringCalculator.NewlineActsAsComma` | src/main.js:11-17 | Without a header, a line feed anywhere sums exactly as a comma in its place. |
| `StringCalculator.NewlineActsAsDeclaredDelimiter` | src/main.js:8-17 | After a header, a line feed anywhere sums exactly as the declared delimiter in its place. |
| `JsBuiltins.SplitShows` | src/main.js:17 | Decimal notations joined by a delimiter that is not a digit or a line feed split back into those notations, and the joined text has no line feed. `-` qualifies when no integer is negative. |
| `StringCalculator.SumOfNoHeader` | src/main.js:8-17 | Without a header or line feeds, `add` sums the pieces of `split(",")`. |
| `StringCalculator.SumOfHeader` | src/main.js:8-17 | After a header, without line feeds, `add` sums the pieces of a split on the declared delimiter. |
| `StringCalculator.AddCommaSeparated` | src/main.js:1-29 | Any non-empty list of integers, negatives and values over 1000 included, written with commas, adds up to its arithmetic total. |
| `StringCalculator.AddWithDeclaredDelimiter` | src/main.js:1-29 | Any non-empty list of integers written with a declared delimiter that is not a digit or a line terminator adds up to its total. The delimiter may be `-` when no integer is negative. |
| `StringCalculator.AddExamplesEmpty` | src/main.js:3-5 | `add("")` and `add("//;\n")` are 0. |
| `StringCalculator.AddExampleCommas` | src/main.js:17-26 | `add("1,2,3")` is 6. |
| `StringCalculator.AddExampleNewline` | src/main.js:11-14 | `add("1\n2,3")` is 6. |
| `StringCalculator.AddExampleDeclared` | src/main.js:8-26 | `add("//;\n1;2;3")` is 6. |
| `StringCalculator.AddExampleDeclaredNewline` | src/main.js:8-14 | `add("//;\n1;2\n3")` is 6. |
| `StringCalculator.AddExampleDashDelimiter` | src/main.js:8-26 | `add("//-\n5-10-15")` is 30. |
| `StringCalculator.AddExampleNegatives` | src/main.js:20-26 | `add("-1,2,-3,4")` is 2: negatives are summed, not rejected. |
| `StringCalculator.AddExampleOverThousand` | src/main.js:20-26 | `add("2,1000,1001")` is 2003: values over 1000 are kept. |
| `StringCalculator.UnmatchedHeaderIsNaN` | src/main.js:8-26 | An input that starts with `/` but has no matching header sums to NaN. |
| `StringCalculator.AddOnBracketedHeader` | src/main.js:43-46 | `add("//[***]\n1***2***3")` is NaN. |
| `FirstStringCalculator.Reduce` | main.js:11-13 | The `reduce` over the pieces: from 0, the sum so far plus `parseInt` of the next piece, NaN absorbing. |
| `FirstStringCalculator.Add` | main.js:1-14 | What `add` returns: 0 for `""`, otherwise the `reduce` over the comma pieces. |
| `FirstStringCalculator.ReduceNaN` | main.js:11-13 | The fold is NaN exactly when some piece is one `parseInt` cannot read. |
| `FirstStringCalculator.AddNaN` | main.js:8-13 | A non-empty input gives NaN exactly when one of its comma pieces is unreadable. |
| `FirstStringCalculator.ReduceSingle` | main.js:11-13 | The fold over one piece is `parseInt` of that piece. |
| `FirstStringCalculator.ReduceReadStep` | main.js:11-13 | A piece read as `x`, added at the end, adds `x` to the fold. |
| `FirstStringCalculator.ReduceShows` | main.js:11-13 | Decimal notations fold to the total of their integers. |
| `FirstStringCalculator.AddCommaSeparated` | main.js:1-14 | Any non-empty list of integers written with commas adds up to its total. |
| `FirstStringCalculator.AddTrailingComma` | main.js:8-13 | A trailing comma after any input, the empty one included (`","`), makes the result NaN: the empty last piece is not skipped. |
| `FirstStringCalculator.NewlineNotSeparator` | main.js:8 | A line feed is not a separator: `add(x + "\n" + y)` is `x`. |
| `CalculatorVersions.SumTokensReduce` | main.js:11-13 | Over pieces none of which is blank, the later version's running sum equals this fold. |
| `CalculatorVersions.Agreement` | main.js:1-14 | Without line feeds, and with no piece blank after trimming, both versions return the same sum. |
| `FirstStringCalculator.AddExamplesShort` | main.js:1-14 | `add("1")` is 1 and `add("1,2")` is 3. |
| `FirstStringCalculator.AddExamples` | main.js:1-14 | `add("")` is 0 and `add("1,2,3")` is 6. |

## Left out

- The regular expression engine. The header pattern at src/main.js:43 is checked at
  fixed indices. `.` excludes the four ECMAScript line terminators.
- Number semantics:
  - Sums and parsed values are unbounded integers. Doubles lose precision above
    2^53 and overflow to `Infinity`, and neither is modelled.
  - `parseInt("-0")` is `-0`. It sums like 0, and the model gives 0.
- `parseInt`'s radix argument is never passed, so it is left out. The `0x`/`0X`
  prefix that selects base 16 without a radix is modelled.
- White space for `trim` and `parseInt` is a fixed set: tab, vertical tab, form feed,
  space, no-break space, byte order mark and the line terminators. The other Unicode
  space separators (category Zs) are left out.
- `JsBuiltins.ReplaceFirst`: the `$` substitution patterns of `replace` (`$$`, `$&`,
  `` $` ``, `$'`) are not modelled; the replacement is taken literally. The calculator
  only ever passes its one-character delimiter, where a lone `$` is literal too.
- `split` and `replace` are modelled for a one-character separator and pattern only.
  Nothing longer can reach them: the delimiter is always one character.
- A JavaScript string is a sequence of UTF-16 code units. Dafny's `char` is a Unicode
  scalar value, so lone surrogates and characters outside the Basic Multilingual
  Plane are not represented one for one.
- `StringCalculator.HasHeader`: a character outside the Basic Multilingual Plane at
  index 2 makes a header in the model but not in the source. There it is two code
  units, `(.)` takes the first, and the second stands where `\n` is required. So
  `"//😀\n1😀2"` sums to 3 in the model and to NaN in the source.
- Arguments that are not strings are left out. JavaScript would coerce them or throw.
- Three features that the repository's tests expect are absent from
  the code: bracketed multi-character delimiters, the "Negatives not allowed" error,
  and dropping values over 1000. They are not attributed to the model of
  `src/main.js`; the examples above show what the code does instead.
- The test files themselves are not modelled. Their expectations appear as the
  example lemmas.
