/** The two versions of `add` side by side: where the later one, with its header,
    line feeds, trimming and skipping, returns what the first one does. */
module CalculatorVersions {
  import opened JsBuiltins
  import StringCalculator
  import FirstStringCalculator

  /** Where the later version changes nothing: without line feeds, and when no piece
      is blank after trimming, both versions add up to the same. */
  lemma {:induction false} Agreement(s: string)
    requires '\n' !in s
    requires forall k :: 0 <= k < |Split(s, ',')| ==> Trim(Split(s, ',')[k]) != ""
    ensures StringCalculator.SumOf(s) == FirstStringCalculator.Add(s)
  {
    if s != "" {
      assert !StringCalculator.HasHeader(s);
      ReplaceAllAbsent(s, '\n', ",");
      SumTokensReduce(Split(s, ','));
    }
  }

  /** Over pieces none of which is blank, the running sum of the later version is the
      `reduce` of the first. */
  lemma {:induction false} SumTokensReduce(pieces: seq<string>)
    requires forall k :: 0 <= k < |pieces| ==> Trim(pieces[k]) != ""
    ensures StringCalculator.SumTokens(pieces) == FirstStringCalculator.Reduce(pieces)
  {
    if pieces != [] {
      var init, last := pieces[..|pieces| - 1], pieces[|pieces| - 1];
      assert forall k :: 0 <= k < |init| ==> init[k] == pieces[k];
      SumTokensReduce(init);
      ParseIntTrim(last);
    }
  }
}
