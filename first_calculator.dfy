/** The first version of the calculator, `add` in `main.js`: the empty string is 0,
    anything else is split on commas and `parseInt` of every piece is added to a
    running sum that starts at 0. There is no header, no trimming and no skipping. */
module FirstStringCalculator {
  import opened JsBuiltins

  /** The `reduce` over the pieces: the sum so far plus `parseInt` of the next piece,
      from 0. */
  function Reduce(pieces: seq<string>): Option<int> {
    if pieces == [] then Some(0)
    else Plus(Reduce(pieces[..|pieces| - 1]), ParseInt(pieces[|pieces| - 1]))
  }

  /** What `add(numbers)` returns; `None` is NaN. */
  function Add(numbers: string): Option<int> {
    if numbers == "" then Some(0) else Reduce(Split(numbers, ','))
  }

  /** A piece that `parseInt` cannot read. */
  predicate Unreadable(piece: string) {
    ParseInt(piece) == None
  }

  /** The sum is NaN exactly when some piece is one that `parseInt` cannot read. */
  lemma {:induction false} ReduceNaN(pieces: seq<string>)
    ensures Reduce(pieces) == None <==> SomeToken(pieces, Unreadable)
  {
    if pieces != [] {
      var init := pieces[..|pieces| - 1];
      ReduceNaN(init);
      SomeTokenLast(pieces, Unreadable);
    }
  }

  /** A non-empty input gives NaN exactly when one of its comma-separated pieces is
      one that `parseInt` cannot read: an empty piece, a blank one, or one that does
      not start with a number. */
  lemma AddNaN(numbers: string)
    requires numbers != ""
    ensures Add(numbers) == None <==> SomeToken(Split(numbers, ','), Unreadable)
  {
    ReduceNaN(Split(numbers, ','));
  }

  lemma ReduceSingle(piece: string)
    ensures Reduce([piece]) == ParseInt(piece)
  {
    assert [piece][..0] == [];
  }

  /** A piece read as `x` added at the end adds `x` to the sum. */
  lemma ReduceReadStep(init: seq<string>, piece: string, s: int, x: int)
    requires Reduce(init) == Some(s) && ParseInt(piece) == Some(x)
    ensures Reduce(init + [piece]) == Some(s + x)
  {
    assert (init + [piece])[..|init|] == init;
  }

  /** Decimal notations add up to the total of the integers they denote. */
  lemma {:induction false} ReduceShows(xs: seq<int>)
    ensures Reduce(Shows(xs)) == Some(Total(xs))
  {
    if xs != [] {
      var n := |xs| - 1;
      ReduceShows(xs[..n]);
      ParseIntShowAlone(xs[n]);
      ReduceReadStep(Shows(xs[..n]), Show(xs[n]), Total(xs[..n]), xs[n]);
    }
  }

  /** Integers joined by commas add up to their sum. */
  lemma AddCommaSeparated(xs: seq<int>)
    requires |xs| >= 1
    ensures Add(Join(Shows(xs), ',')) == Some(Total(xs))
  {
    SplitShows(xs, ',');
    ShowsAt(xs);
    JoinHead(Shows(xs), ',');
    ReduceShows(xs);
  }

  /** A trailing comma makes the sum NaN: the last piece is empty. */
  lemma AddTrailingComma(s: string)
    ensures Add(s + ",") == None
  {
    SplitConcat(s, ',', "");
    assert s + "," == s + [','] + "";
    ParseIntNoDigits("");
    var pieces := Split(s, ',') + [""];
    assert pieces[..|pieces| - 1] == Split(s, ',');
  }

  /** A line feed is not a separator: the one piece is read up to it. */
  lemma NewlineNotSeparator(x: int, y: int)
    ensures Add(Show(x) + "\n" + Show(y)) == Some(x)
  {
    var s := Show(x) + ("\n" + Show(y));
    assert Show(x) + "\n" + Show(y) == s;
    ShowAvoids(x, ',');
    ShowAvoids(y, ',');
    assert ',' !in "\n" + Show(y);
    SplitWithoutSeparator(s, ',');
    ParseIntShow(x, "\n" + Show(y));
    ReduceSingle(s);
  }

  /** The sums the tests expect of a single number and of a list of two. */
  lemma AddExamplesShort()
    ensures Add("1") == Some(1)
    ensures Add("1,2") == Some(3)
  {
    AddCommaSeparated([1]);
    AddCommaSeparated([1, 2]);
    ShowsOneTwo();
    assert [1, 2][..1] == [1] && [1][..0] == [];
    assert Join(["1", "2"], ',') == "1,2";
  }

  /** The sums of the empty string and of a comma-separated list. */
  lemma AddExamples()
    ensures Add("") == Some(0)
    ensures Add("1,2,3") == Some(6)
  {
    AddCommaSeparated([1, 2, 3]);
    ShowsOneTwoThree();
    TotalOneTwoThree();
    assert Join(["1", "2", "3"], ',') == "1,2,3" by {
      assert Join(["2", "3"], ',') == "2,3";
    }
  }
}
