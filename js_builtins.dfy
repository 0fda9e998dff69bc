/** The ECMAScript string and number built-ins the string calculator relies on:
    `trim`, `split`, `indexOf`/`includes`/`replace` with a one-character pattern,
    `parseInt`, and Number addition with NaN. Strings are sequences of
    `char`, and a `char` is a Unicode scalar value: on text within the Basic
    Multilingual Plane it is one UTF-16 code unit of the JavaScript string. */
module JsBuiltins {

  /** A JavaScript number produced by `parseInt` or `+`: `None` stands for NaN. */
  datatype Option<+T> = None | Some(value: T)

  // ---------------------------------------------------------------------------
  // Character classes

  /** The ECMAScript line terminators: LF, CR, LINE SEPARATOR, PARAGRAPH SEPARATOR. */
  predicate IsLineTerminator(c: char) {
    c == '\n' || c == '\r' || c == '\U{2028}' || c == '\U{2029}'
  }

  /** The white space that `trim` strips and `parseInt` skips: tab, vertical tab,
      form feed, space, no-break space, the byte order mark, and the line terminators. */
  predicate IsWhiteSpace(c: char) {
    c == '\t' || c == '\U{000B}' || c == '\U{000C}' || c == ' ' || c == '\U{00A0}' || c == '\U{FEFF}'
    || IsLineTerminator(c)
  }

  predicate IsDecimalDigit(c: char) {
    '0' <= c <= '9'
  }

  /** The value of `c` as a digit of base `radix` (10 or 16), letters of either case
      standing for 10 and up, or -1 when `c` is not such a digit. */
  function DigitValue(c: char, radix: nat): (v: int)
    requires radix == 10 || radix == 16
    ensures v < radix
  {
    var d :=
      if '0' <= c <= '9' then c as int - '0' as int
      else if 'a' <= c <= 'z' then c as int - 'a' as int + 10
      else if 'A' <= c <= 'Z' then c as int - 'A' as int + 10
      else -1;
    if d < radix then d else -1
  }

  // ---------------------------------------------------------------------------
  // String.prototype.trim

  /** `s` without its leading white space. */
  function TrimStart(s: string): (r: string)
    ensures |r| <= |s|
  {
    if s != [] && IsWhiteSpace(s[0]) then TrimStart(s[1..]) else s
  }

  /** `TrimStart` drops a prefix made only of white space and stops at the first
      character that is not white space. */
  lemma {:induction false} TrimStartDrops(s: string)
    ensures TrimStart(s) == s[|s| - |TrimStart(s)|..]
    ensures forall k :: 0 <= k < |s| - |TrimStart(s)| ==> IsWhiteSpace(s[k])
    ensures TrimStart(s) == [] || !IsWhiteSpace(TrimStart(s)[0])
  {
    if s != [] && IsWhiteSpace(s[0]) {
      TrimStartDrops(s[1..]);
    }
  }

  /** `s` without its trailing white space. */
  function TrimEnd(s: string): (r: string)
    ensures |r| <= |s|
  {
    if s != [] && IsWhiteSpace(s[|s| - 1]) then TrimEnd(s[..|s| - 1]) else s
  }

  /** `TrimEnd` drops a suffix made only of white space and stops at the last
      character that is not white space. */
  lemma {:induction false} TrimEndDrops(s: string)
    ensures TrimEnd(s) == s[..|TrimEnd(s)|]
    ensures forall k :: |TrimEnd(s)| <= k < |s| ==> IsWhiteSpace(s[k])
    ensures TrimEnd(s) == [] || !IsWhiteSpace(TrimEnd(s)[|TrimEnd(s)| - 1])
  {
    if s != [] && IsWhiteSpace(s[|s| - 1]) {
      TrimEndDrops(s[..|s| - 1]);
    }
  }

  /** `s.trim()`. */
  function Trim(s: string): (r: string)
    ensures |r| <= |s|
  {
    TrimEnd(TrimStart(s))
  }

  /** `trim` gives the empty string exactly when `s` is all white space, and otherwise
      a string that begins and ends with a character that is not white space. */
  lemma TrimSpec(s: string)
    ensures Trim(s) == [] <==> forall k :: 0 <= k < |s| ==> IsWhiteSpace(s[k])
    ensures Trim(s) != [] ==> !IsWhiteSpace(Trim(s)[0]) && !IsWhiteSpace(Trim(s)[|Trim(s)| - 1])
  {
    var t := TrimStart(s);
    var r := TrimEnd(t);
    TrimStartDrops(s);
    TrimEndDrops(t);
    assert r != [] ==> r[0] == t[0];
    assert forall k :: 0 <= k < |t| ==> t[k] == s[|s| - |t| + k];
  }

  lemma TrimStartUnchanged(s: string)
    requires s == [] || !IsWhiteSpace(s[0])
    ensures TrimStart(s) == s
  {
  }

  lemma TrimEndUnchanged(s: string)
    requires s == [] || !IsWhiteSpace(s[|s| - 1])
    ensures TrimEnd(s) == s
  {
  }

  /** A string starting with a character that is not white space trims to one
      starting with that same character. */
  lemma TrimHead(s: string)
    requires s != [] && !IsWhiteSpace(s[0])
    ensures Trim(s) != [] && Trim(s)[0] == s[0]
  {
    TrimStartUnchanged(s);
    TrimEndDrops(s);
  }

  // ---------------------------------------------------------------------------
  // String.prototype.split with a one-character separator, and its inverse

  /** `s.split(sep)`: the pieces of `s` between occurrences of `sep`, in order;
      there is always at least one. */
  function Split(s: string, sep: char): (r: seq<string>)
    ensures |r| >= 1
  {
    if s == [] then [""] else Prepend(s[0], Split(s[1..], sep), sep)
  }

  /** The pieces of `[x] + rest` from those of `rest`: a separator starts a new empty
      piece, any other character goes in front of the first piece. */
  function Prepend(x: char, pieces: seq<string>, sep: char): (r: seq<string>)
    requires |pieces| >= 1
    ensures |r| >= 1
  {
    if x == sep then [""] + pieces else [[x] + pieces[0]] + pieces[1..]
  }

  lemma PrependAppend(x: char, left: seq<string>, right: seq<string>, sep: char)
    requires |left| >= 1
    ensures Prepend(x, left + right, sep) == Prepend(x, left, sep) + right
  {
    if x != sep {
      assert (left + right)[0] == left[0];
      assert (left + right)[1..] == left[1..] + right;
    }
  }

  lemma SplitCons(x: char, rest: string, sep: char)
    ensures Split([x] + rest, sep) == Prepend(x, Split(rest, sep), sep)
  {
    assert ([x] + rest)[1..] == rest;
  }

  /** No piece holds the separator. */
  lemma {:induction false} SplitPiecesAvoid(s: string, sep: char)
    ensures forall k :: 0 <= k < |Split(s, sep)| ==> sep !in Split(s, sep)[k]
  {
    if s != [] {
      SplitPiecesAvoid(s[1..], sep);
      var rest := Split(s[1..], sep);
      var r := Split(s, sep);
      if s[0] == sep {
        assert forall k :: 1 <= k < |r| ==> r[k] == rest[k - 1];
      } else {
        assert r[0] == [s[0]] + rest[0];
        assert forall k :: 1 <= k < |r| ==> r[k] == rest[k];
      }
    }
  }

  /** There is one more piece than there are separators. */
  lemma {:induction false} SplitCount(s: string, sep: char)
    ensures |Split(s, sep)| == multiset(s)[sep] + 1
  {
    if s != [] {
      SplitCount(s[1..], sep);
      assert s == [s[0]] + s[1..];
    }
  }

  /** The first piece starts where `s` does, unless `s` starts with the separator. */
  lemma SplitHead(s: string, sep: char)
    requires s != [] && s[0] != sep
    ensures Split(s, sep)[0] != [] && Split(s, sep)[0][0] == s[0]
  {
  }

  /** `ts.join(sep)`, the partner of `Split`. */
  function Join(ts: seq<string>, sep: char): string
    requires |ts| >= 1
  {
    if |ts| == 1 then ts[0] else ts[0] + [sep] + Join(ts[1..], sep)
  }

  /** A join starts with the first piece. */
  lemma JoinHead(ts: seq<string>, sep: char)
    requires |ts| >= 1 && ts[0] != []
    ensures Join(ts, sep) != [] && Join(ts, sep)[0] == ts[0][0]
  {
  }

  /** Splitting and joining back gives the original string. */
  lemma {:induction false} JoinSplit(s: string, sep: char)
    ensures Join(Split(s, sep), sep) == s
  {
    if s != [] {
      JoinSplit(s[1..], sep);
      var rest := Split(s[1..], sep);
      if s[0] == sep {
        assert ([""] + rest)[1..] == rest;
      } else if |rest| > 1 {
        assert ([[s[0]] + rest[0]] + rest[1..])[1..] == rest[1..];
      }
    }
  }

  /** A string without the separator is one piece. */
  lemma {:induction false} SplitWithoutSeparator(a: string, sep: char)
    requires sep !in a
    ensures Split(a, sep) == [a]
  {
    if a != [] {
      SplitWithoutSeparator(a[1..], sep);
      assert [a[0]] + a[1..] == a;
    }
  }

  /** Splitting at one separator splits each side on its own. */
  lemma {:induction false} SplitConcat(a: string, sep: char, b: string)
    ensures Split(a + [sep] + b, sep) == Split(a, sep) + Split(b, sep)
  {
    if a == [] {
      assert a + [sep] + b == [sep] + b;
      SplitCons(sep, b, sep);
    } else {
      var x, a1 := a[0], a[1..];
      var tail := a1 + [sep] + b;
      SplitConcat(a1, sep, b);
      assert a + [sep] + b == [x] + tail;
      SplitCons(x, tail, sep);
      PrependAppend(x, Split(a1, sep), Split(b, sep), sep);
    }
  }

  /** Joining pieces free of the separator and splitting again gives the pieces back. */
  lemma {:induction false} SplitJoin(ts: seq<string>, sep: char)
    requires |ts| >= 1
    requires forall k :: 0 <= k < |ts| ==> sep !in ts[k]
    ensures Split(Join(ts, sep), sep) == ts
  {
    SplitWithoutSeparator(ts[0], sep);
    if |ts| > 1 {
      SplitJoin(ts[1..], sep);
      SplitConcat(ts[0], sep, Join(ts[1..], sep));
      assert [ts[0]] + ts[1..] == ts;
    }
  }

  /** A character that is neither the separator nor in any piece is not in the join. */
  lemma {:induction false} JoinAvoids(ts: seq<string>, sep: char, x: char)
    requires |ts| >= 1 && x != sep
    requires forall k :: 0 <= k < |ts| ==> x !in ts[k]
    ensures x !in Join(ts, sep)
  {
    if |ts| > 1 {
      JoinAvoids(ts[1..], sep, x);
      assert x !in ts[0];
    }
  }

  // ---------------------------------------------------------------------------
  // String.prototype.indexOf / includes / replace with a one-character pattern

  /** `s.indexOf(c)`: a position of `c` in `s`, or -1. */
  function IndexOf(s: string, c: char): (r: int)
    ensures -1 <= r < |s|
    ensures r != -1 ==> s[r] == c
  {
    if s == [] then -1
    else if s[0] == c then 0
    else
      var i := IndexOf(s[1..], c);
      if i == -1 then -1 else i + 1
  }

  /** `indexOf` is -1 exactly when `c` is absent, and otherwise the first position. */
  lemma {:induction false} IndexOfFirst(s: string, c: char)
    ensures IndexOf(s, c) == -1 <==> c !in s
    ensures IndexOf(s, c) != -1 ==> c !in s[..IndexOf(s, c)]
  {
    if s != [] && s[0] != c {
      IndexOfFirst(s[1..], c);
      var i := IndexOf(s[1..], c);
      assert s == [s[0]] + s[1..];
      if i != -1 {
        assert s[..i + 1] == [s[0]] + s[1..][..i];
      }
    }
  }

  /** `s.replace(c, repl)` with a one-character string pattern: only the first
      occurrence of `c` is replaced, and `s` is returned as it is when there is none.
      The replacement is taken literally (no `$` substitution patterns). */
  function ReplaceFirst(s: string, c: char, repl: string): (r: string)
    ensures c !in s ==> r == s
    ensures c in s ==> |r| == |s| - 1 + |repl|
    ensures c in s ==> exists i :: 0 <= i < |s| && s[i] == c && c !in s[..i] && r == s[..i] + repl + s[i + 1..]
  {
    IndexOfFirst(s, c);
    var i := IndexOf(s, c);
    if i == -1 then s else s[..i] + repl + s[i + 1..]
  }

  /** Every occurrence of `c` in `s` replaced by `repl`. */
  function ReplaceAll(s: string, c: char, repl: string): string {
    if s == [] then []
    else (if s[0] == c then repl else [s[0]]) + ReplaceAll(s[1..], c, repl)
  }

  /** A first character other than `c` is kept. */
  lemma ReplaceAllHead(s: string, c: char, repl: string)
    requires s != [] && s[0] != c
    ensures ReplaceAll(s, c, repl) != [] && ReplaceAll(s, c, repl)[0] == s[0]
  {
  }

  /** With nothing to replace, nothing changes. */
  lemma {:induction false} ReplaceAllAbsent(s: string, c: char, repl: string)
    requires c !in s
    ensures ReplaceAll(s, c, repl) == s
  {
    if s != [] {
      assert s == [s[0]] + s[1..];
      ReplaceAllAbsent(s[1..], c, repl);
    }
  }

  /** When the replacement holds no `c`, the result holds none either. */
  lemma {:induction false} ReplaceAllRemoves(s: string, c: char, repl: string)
    requires c !in repl
    ensures c !in ReplaceAll(s, c, repl)
  {
    if s != [] {
      ReplaceAllRemoves(s[1..], c, repl);
    }
  }

  /** `ReplaceAll` distributes over concatenation. */
  lemma {:induction false} ReplaceAllConcat(a: string, b: string, c: char, repl: string)
    ensures ReplaceAll(a + b, c, repl) == ReplaceAll(a, c, repl) + ReplaceAll(b, c, repl)
  {
    if a == [] {
      assert a + b == b;
    } else {
      var x, rest := a[0], a[1..];
      ReplaceAllConcat(rest, b, c, repl);
      assert a == [x] + rest;
      assert a + b == [x] + (rest + b);
      ReplaceAllCons(x, rest, c, repl);
      ReplaceAllCons(x, rest + b, c, repl);
    }
  }

  lemma ReplaceAllCons(x: char, rest: string, c: char, repl: string)
    ensures ReplaceAll([x] + rest, c, repl) == (if x == c then repl else [x]) + ReplaceAll(rest, c, repl)
  {
    assert ([x] + rest)[1..] == rest;
  }

  /** Replacing by one character, position by position: a `c` at index `k` becomes
      `repl[0]`, every other character stays, and the length is kept. */
  lemma {:induction false} ReplaceAllAt(s: string, c: char, repl: string)
    requires |repl| == 1
    ensures |ReplaceAll(s, c, repl)| == |s|
    ensures forall k :: 0 <= k < |s| ==>
              ReplaceAll(s, c, repl)[k] == if s[k] == c then repl[0] else s[k]
  {
    if s != [] {
      ReplaceAllAt(s[1..], c, repl);
      var r := ReplaceAll(s, c, repl);
      forall k | 0 <= k < |s|
        ensures r[k] == if s[k] == c then repl[0] else s[k]
      {
        if k > 0 {
          assert r[k] == ReplaceAll(s[1..], c, repl)[k - 1];
        }
      }
    }
  }

  /** One `replace` step of the normalising loop: one fewer `c`, and the same
      fully replaced string as before. */
  lemma ReplaceFirstProgress(s: string, c: char, repl: string)
    requires c in s && c !in repl
    ensures multiset(ReplaceFirst(s, c, repl))[c] == multiset(s)[c] - 1
    ensures ReplaceAll(ReplaceFirst(s, c, repl), c, repl) == ReplaceAll(s, c, repl)
  {
    IndexOfFirst(s, c);
    var i := IndexOf(s, c);
    var pre, post := s[..i], s[i + 1..];
    assert s == pre + [c] + post;
    assert ReplaceFirst(s, c, repl) == pre + repl + post;
    ReplaceFirstCount(pre, c, post, repl);
    ReplaceFirstReplaceAll(pre, c, post, repl);
  }

  lemma ReplaceFirstCount(pre: string, c: char, post: string, repl: string)
    requires c !in repl
    ensures multiset(pre + repl + post)[c] == multiset(pre + [c] + post)[c] - 1
  {
    assert multiset(repl)[c] == 0;
  }

  lemma ReplaceFirstReplaceAll(pre: string, c: char, post: string, repl: string)
    requires c !in repl
    ensures ReplaceAll(pre + repl + post, c, repl) == ReplaceAll(pre + [c] + post, c, repl)
  {
    assert pre + repl + post == pre + (repl + post);
    assert pre + [c] + post == pre + ([c] + post);
    ReplaceAllConcat(pre, repl + post, c, repl);
    ReplaceAllConcat(repl, post, c, repl);
    ReplaceAllAbsent(repl, c, repl);
    ReplaceAllCons(c, post, c, repl);
    ReplaceAllConcat(pre, [c] + post, c, repl);
    calc {
      ReplaceAll(pre + (repl + post), c, repl);
      ReplaceAll(pre, c, repl) + ReplaceAll(repl + post, c, repl);
      ReplaceAll(pre, c, repl) + (repl + ReplaceAll(post, c, repl));
      ReplaceAll(pre, c, repl) + ReplaceAll([c] + post, c, repl);
      ReplaceAll(pre + ([c] + post), c, repl);
    }
  }

  // ---------------------------------------------------------------------------
  // parseInt (no radix argument)

  /** The maximal prefix of `s` made of digits of base `radix`. */
  function LeadingDigits(s: string, radix: nat): (r: string)
    requires radix == 10 || radix == 16
    ensures |r| <= |s|
  {
    if s != [] && DigitValue(s[0], radix) >= 0 then [s[0]] + LeadingDigits(s[1..], radix) else []
  }

  /** `LeadingDigits` is a prefix of `s` made of digits, and no digit follows it. */
  lemma {:induction false} LeadingDigitsSpec(s: string, radix: nat)
    requires radix == 10 || radix == 16
    ensures LeadingDigits(s, radix) == s[..|LeadingDigits(s, radix)|]
    ensures forall k :: 0 <= k < |LeadingDigits(s, radix)| ==> DigitValue(s[k], radix) >= 0
    ensures |LeadingDigits(s, radix)| == |s| || DigitValue(s[|LeadingDigits(s, radix)|], radix) < 0
  {
    if s != [] && DigitValue(s[0], radix) >= 0 {
      LeadingDigitsSpec(s[1..], radix);
    }
  }

  /** The number that the digits `ds` denote in base `radix`. */
  function Value(ds: string, radix: nat): int
    requires radix == 10 || radix == 16
  {
    if ds == [] then 0 else Value(ds[..|ds| - 1], radix) * radix + DigitValue(ds[|ds| - 1], radix)
  }

  /** The magnitude read after the sign: a `0x`/`0X` prefix selects base 16, then the
      maximal run of digits; no digit at all is NaN. */
  function ParseMagnitude(s: string): Option<int> {
    var hex := |s| >= 2 && s[0] == '0' && (s[1] == 'x' || s[1] == 'X');
    var radix := if hex then 16 else 10;
    var z := LeadingDigits(if hex then s[2..] else s, radix);
    if z == [] then None else Some(Value(z, radix))
  }

  /** What `parseInt` reads once the leading white space is gone: an optional sign,
      then the magnitude. */
  function ParseSigned(s: string): Option<int> {
    var negative := s != [] && s[0] == '-';
    var m := ParseMagnitude(if s != [] && (s[0] == '-' || s[0] == '+') then s[1..] else s);
    match m
    case None => None
    case Some(v) => Some(if negative then -v else v)
  }

  /** `parseInt(input)`: leading white space skipped, optional sign, optional hex
      prefix, the longest run of digits; anything after that run is ignored. */
  function ParseInt(input: string): (r: Option<int>)
    ensures TrimStart(input) == [] ==> r == None
  {
    ParseSigned(TrimStart(input))
  }

  /** `a + b` on numbers: NaN absorbs everything. */
  function Plus(a: Option<int>, b: Option<int>): (r: Option<int>)
    ensures r == None <==> a == None || b == None
    ensures r != None ==> r.value == a.value + b.value
  {
    match (a, b)
    case (Some(x), Some(y)) => Some(x + y)
    case _ => None
  }

  // ---------------------------------------------------------------------------
  // Decimal notation, the partner of parseInt

  function DigitChar(d: nat): (c: char)
    requires d < 10
    ensures IsDecimalDigit(c) && DigitValue(c, 10) == d
  {
    ('0' as int + d) as char
  }

  /** The decimal digits of `n`, without leading zeros. */
  function Digits(n: nat): (r: string)
    ensures |r| >= 1
    ensures r[0] == '0' ==> n == 0
  {
    if n < 10 then [DigitChar(n)] else Digits(n / 10) + [DigitChar(n % 10)]
  }

  lemma {:induction false} DigitsAreDigits(n: nat)
    ensures forall k :: 0 <= k < |Digits(n)| ==> IsDecimalDigit(Digits(n)[k])
  {
    if n >= 10 {
      DigitsAreDigits(n / 10);
    }
  }

  /** The decimal notation of `i`, with a `-` in front when it is negative. */
  function Show(i: int): (r: string)
    ensures |r| >= 1
  {
    if i < 0 then "-" + Digits(-i) else Digits(i)
  }

  /** Decimal notation is digits, ending in one, with perhaps a `-` in front. */
  lemma ShowChars(i: int)
    ensures IsDecimalDigit(Show(i)[|Show(i)| - 1])
    ensures forall k :: 0 <= k < |Show(i)| ==> IsDecimalDigit(Show(i)[k]) || (k == 0 && Show(i)[k] == '-')
  {
    if i < 0 {
      DigitsAreDigits(-i);
    } else {
      DigitsAreDigits(i);
    }
  }

  /** Decimal notation holds no character other than digits and `-`, and no `-`
      when the integer is not negative. */
  lemma ShowAvoids(i: int, c: char)
    requires !IsDecimalDigit(c) && (c != '-' || i >= 0)
    ensures c !in Show(i)
  {
    if i >= 0 {
      DigitsAreDigits(i);
    } else {
      ShowChars(i);
    }
  }

  lemma {:induction false} ValueOfDigits(n: nat)
    ensures Value(Digits(n), 10) == n
  {
    if n >= 10 {
      ValueOfDigits(n / 10);
      var ds := Digits(n);
      assert ds[..|ds| - 1] == Digits(n / 10);
    }
  }

  /** The digit run stops at the first character that is not a digit. */
  lemma {:induction false} LeadingDigitsAppend(v: string, w: string, radix: nat)
    requires radix == 10 || radix == 16
    requires w == [] || DigitValue(w[0], radix) < 0
    ensures LeadingDigits(v + w, radix) == LeadingDigits(v, radix)
  {
    if v == [] {
      assert v + w == w;
    } else {
      assert (v + w)[1..] == v[1..] + w;
      LeadingDigitsAppend(v[1..], w, radix);
    }
  }

  lemma {:induction false} AllDigitsLeading(ds: string)
    requires forall k :: 0 <= k < |ds| ==> IsDecimalDigit(ds[k])
    ensures LeadingDigits(ds, 10) == ds
  {
    if ds != [] {
      AllDigitsLeading(ds[1..]);
      assert ds == [ds[0]] + ds[1..];
    }
  }

  /** The magnitude of the decimal digits of `n`, followed by anything that is not
      a digit (nor a hexadecimal marker after a lone `0`), is `n`. */
  lemma ParseMagnitudeDigits(n: nat, junk: string)
    requires junk == [] || !IsDecimalDigit(junk[0])
    requires n != 0 || junk == [] || (junk[0] != 'x' && junk[0] != 'X')
    ensures ParseMagnitude(Digits(n) + junk) == Some(n)
  {
    var ds := Digits(n);
    var body := ds + junk;
    assert !(|body| >= 2 && body[0] == '0' && (body[1] == 'x' || body[1] == 'X')) by {
      if |body| >= 2 && body[0] == '0' {
        assert ds[0] == '0';
        assert ds == "0";
        assert body[1] == junk[0];
      }
    }
    assert junk == [] || DigitValue(junk[0], 10) < 0;
    LeadingDigitsAppend(ds, junk, 10);
    DigitsAreDigits(n);
    AllDigitsLeading(ds);
    ValueOfDigits(n);
  }

  /** parseInt reads back the decimal notation of any integer, and ignores what follows
      it as long as that does not start with a digit (nor with `x`/`X` after a lone
      `0`, which would make a hexadecimal prefix). */
  lemma ParseIntShow(i: int, junk: string)
    requires junk == [] || !IsDecimalDigit(junk[0])
    requires i != 0 || junk == [] || (junk[0] != 'x' && junk[0] != 'X')
    ensures ParseInt(Show(i) + junk) == Some(i)
  {
    if i < 0 {
      ParseIntNegative(-i, junk);
      assert Show(i) + junk == ['-'] + (Digits(-i) + junk);
    } else {
      ParseIntNonNegative(i, junk);
    }
  }

  /** parseInt reads back the decimal notation of any integer. */
  lemma ParseIntShowAlone(i: int)
    ensures ParseInt(Show(i)) == Some(i)
  {
    ParseIntShow(i, "");
    assert Show(i) + "" == Show(i);
  }

  lemma ParseIntNegative(n: nat, junk: string)
    requires n > 0
    requires junk == [] || !IsDecimalDigit(junk[0])
    ensures ParseInt(['-'] + (Digits(n) + junk)) == Some(-(n as int))
  {
    var s := ['-'] + (Digits(n) + junk);
    ParseMagnitudeDigits(n, junk);
    ParseSignedNegative(Digits(n) + junk);
    TrimStartUnchanged(s);
  }

  lemma ParseIntNonNegative(n: nat, junk: string)
    requires junk == [] || !IsDecimalDigit(junk[0])
    requires n != 0 || junk == [] || (junk[0] != 'x' && junk[0] != 'X')
    ensures ParseInt(Digits(n) + junk) == Some(n)
  {
    var s := Digits(n) + junk;
    ParseMagnitudeDigits(n, junk);
    DigitsAreDigits(n);
    assert s[0] == Digits(n)[0];
    ParseSignedUnsigned(s);
    TrimStartUnchanged(s);
  }

  lemma ParseSignedNegative(rest: string)
    ensures ParseSigned(['-'] + rest) == match ParseMagnitude(rest)
      case None => None
      case Some(v) => Some(-v)
  {
    assert (['-'] + rest)[1..] == rest;
  }

  lemma ParseSignedUnsigned(rest: string)
    requires rest != [] && IsDecimalDigit(rest[0])
    ensures ParseSigned(rest) == ParseMagnitude(rest)
  {
  }

  /** Without a digit in front, there is no magnitude to read. */
  lemma ParseMagnitudeNoLeadingDigit(u: string)
    requires u == [] || !IsDecimalDigit(u[0])
    ensures ParseMagnitude(u) == None
  {
    if u != [] {
      assert DigitValue(u[0], 10) < 0;
    }
  }

  /** parseInt of a string that starts with a character that is neither white
      space, a sign nor a digit is NaN. */
  lemma ParseIntNonNumeric(s: string)
    requires s != [] && !IsWhiteSpace(s[0]) && s[0] != '-' && s[0] != '+' && !IsDecimalDigit(s[0])
    ensures ParseInt(s) == None
  {
    TrimStartUnchanged(s);
    ParseMagnitudeNoLeadingDigit(s);
  }

  /** A string without any decimal digit parses to NaN. */
  lemma ParseIntNoDigits(s: string)
    requires forall k :: 0 <= k < |s| ==> !IsDecimalDigit(s[k])
    ensures ParseInt(s) == None
  {
    var t := TrimStart(s);
    TrimStartDrops(s);
    var i := |s| - |t|;
    if t != [] && (t[0] == '-' || t[0] == '+') {
      if |t| >= 2 {
        assert t[1] == s[i + 1];
      }
      ParseMagnitudeNoLeadingDigit(t[1..]);
    } else {
      if t != [] {
        assert t[0] == s[i];
      }
      ParseMagnitudeNoLeadingDigit(t);
    }
  }

  /** Trailing white space does not change what `ParseMagnitude` reads. */
  lemma ParseMagnitudeTrailingSpace(v: string, w: string)
    requires w == [] || IsWhiteSpace(w[0])
    ensures ParseMagnitude(v + w) == ParseMagnitude(v)
  {
    var s := v + w;
    var hexS := |s| >= 2 && s[0] == '0' && (s[1] == 'x' || s[1] == 'X');
    var hexV := |v| >= 2 && v[0] == '0' && (v[1] == 'x' || v[1] == 'X');
    assert hexS == hexV by {
      if |v| == 1 && w != [] { assert s[1] == w[0]; }
      if |v| == 0 && w != [] { assert s[0] == w[0]; }
    }
    var radix := if hexV then 16 else 10;
    assert w == [] || DigitValue(w[0], radix) < 0;
    if hexV {
      assert s[2..] == v[2..] + w;
      LeadingDigitsAppend(v[2..], w, radix);
    } else {
      LeadingDigitsAppend(v, w, radix);
    }
  }

  /** Trailing white space does not change what `ParseSigned` reads. */
  lemma ParseSignedTrailingSpace(v: string, w: string)
    requires w == [] || IsWhiteSpace(w[0])
    ensures ParseSigned(v + w) == ParseSigned(v)
  {
    var s := v + w;
    if v != [] && (v[0] == '-' || v[0] == '+') {
      assert s[0] == v[0] && s[1..] == v[1..] + w;
      ParseMagnitudeTrailingSpace(v[1..], w);
    } else {
      assert v == [] && w != [] ==> s[0] == w[0];
      ParseMagnitudeTrailingSpace(v, w);
    }
  }

  /** parseInt of a trimmed string is parseInt of the string itself: parseInt skips
      the leading white space on its own and stops before the trailing one. */
  lemma ParseIntTrim(s: string)
    ensures ParseInt(Trim(s)) == ParseInt(s)
  {
    var t := TrimStart(s);
    var r := TrimEnd(t);
    TrimStartDrops(s);
    TrimEndDrops(t);
    var w := t[|r|..];
    assert t == r + w;
    assert w == [] || IsWhiteSpace(w[0]);
    TrimStartUnchanged(r);
    ParseSignedTrailingSpace(r, w);
  }

  // ---------------------------------------------------------------------------
  // Lists of integers written out

  /** The arithmetic sum of `xs`, added from left to right. */
  function Total(xs: seq<int>): int {
    if xs == [] then 0 else Total(xs[..|xs| - 1]) + xs[|xs| - 1]
  }

  /** The decimal notation of each of `xs`. */
  function Shows(xs: seq<int>): (r: seq<string>)
    ensures |r| == |xs|
  {
    if xs == [] then [] else Shows(xs[..|xs| - 1]) + [Show(xs[|xs| - 1])]
  }

  lemma {:induction false} ShowsAt(xs: seq<int>)
    ensures forall k :: 0 <= k < |xs| ==> Shows(xs)[k] == Show(xs[k])
  {
    if xs != [] {
      ShowsAt(xs[..|xs| - 1]);
    }
  }

  /** Decimal notation has no white space to trim. */
  lemma TrimShow(i: int)
    ensures Trim(Show(i)) == Show(i)
  {
    var s := Show(i);
    ShowChars(i);
    TrimStartUnchanged(s);
    TrimEndUnchanged(s);
  }

  /** Decimal notations joined by `c` split back into those notations. A `-` may
      serve as the separator only between integers that are not negative. */
  lemma SplitShows(xs: seq<int>, c: char)
    requires |xs| >= 1 && !IsDecimalDigit(c) && c != '\n'
    requires c == '-' ==> forall k :: 0 <= k < |xs| ==> xs[k] >= 0
    ensures '\n' !in Join(Shows(xs), c)
    ensures Split(Join(Shows(xs), c), c) == Shows(xs)
  {
    var ts := Shows(xs);
    ShowsAt(xs);
    forall k | 0 <= k < |ts| ensures c !in ts[k] && '\n' !in ts[k] {
      ShowAvoids(xs[k], c);
      ShowAvoids(xs[k], '\n');
    }
    JoinAvoids(ts, c, '\n');
    SplitJoin(ts, c);
  }

  lemma ShowsOneTwo()
    ensures Shows([1]) == ["1"] && Shows([1, 2]) == ["1", "2"]
  {
    ShowsAt([1]);
    ShowsAt([1, 2]);
    assert Show(1) == "1" && Show(2) == "2";
  }

  lemma ShowsOneTwoThree()
    ensures Shows([1, 2, 3]) == ["1", "2", "3"]
  {
    ShowsAt([1, 2, 3]);
    assert Show(1) == "1" && Show(2) == "2" && Show(3) == "3";
  }

  lemma TotalOneTwoThree()
    ensures Total([1, 2, 3]) == 6
  {
    assert [1, 2, 3][..2] == [1, 2] && [1, 2][..1] == [1] && [1][..0] == [];
  }

  // ---------------------------------------------------------------------------
  // Tokens that satisfy a test

  /** Some token satisfies `p`. */
  predicate SomeToken(tokens: seq<string>, p: string -> bool) {
    exists k :: 0 <= k < |tokens| && p(tokens[k])
  }

  /** Some token of a non-empty list satisfies `p` exactly when one before the last
      does, or the last one does. */
  lemma SomeTokenLast(tokens: seq<string>, p: string -> bool)
    requires tokens != []
    ensures SomeToken(tokens, p) <==> SomeToken(tokens[..|tokens| - 1], p) || p(tokens[|tokens| - 1])
  {
    var init := tokens[..|tokens| - 1];
    if SomeToken(tokens, p) {
      var k :| 0 <= k < |tokens| && p(tokens[k]);
      if k < |init| {
        assert init[k] == tokens[k];
      }
    }
    if SomeToken(init, p) {
      var k :| 0 <= k < |init| && p(init[k]);
      assert tokens[k] == init[k];
    }
  }
}
