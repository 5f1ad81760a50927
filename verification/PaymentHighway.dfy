/**
 * The collection loop of `matchesForRegex` in the Swift 4 copy (PaymentHighway/Extensions.swift).
 * The regular-expression engine is not modelled: its list of matches is the input.
 */
module PaymentHighway {
  import opened Strings

  /**
   * Appends, match after match, the text of every capture group `1 ..< numberOfRanges`. Forming the
   * range `1 ..< n` traps when `n < 1`, so every result must carry at least its whole-match range;
   * the engine always provides it.
   */
  method MatchesForRegex(s: string, results: seq<TextCheckingResult>) returns (strings: seq<string>)
    requires RangesInString(s, results)
    requires forall m :: m in results ==> |m.ranges| >= 1
    ensures strings == Captures(s, results)
  {
    strings := [];
    for j := 0 to |results|
      invariant strings == Captures(s, results[..j])
    {
      var result := results[j];
      CapturesStep(s, results, j);
      ghost var done := Captures(s, results[..j]);
      for i := 1 to |result.ranges|
        invariant strings == done + FirstGroups(s, result, i - 1)
      {
        FirstGroupsStep(s, result, i - 1);
        strings := strings + [RangeText(s, result.ranges[i])];
      }
    }
    assert results[..|results|] == results;
  }
}
