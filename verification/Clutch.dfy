/**
 * The collection loop of `matchesForRegex` in the Swift 1.x copy (Clutch/Extensions.swift). The
 * regular-expression engine is not modelled: its list of matches is the input.
 */
module Clutch {
  import opened Strings

  /**
   * Appends, match after match, the text of every capture group `1 ..< numberOfRanges`. The inner
   * loop is C-style (`for var i = 1; i < n; i++`), so a result with no range at all contributes
   * nothing rather than trapping.
   */
  method MatchesForRegex(s: string, results: seq<TextCheckingResult>) returns (strings: seq<string>)
    requires RangesInString(s, results)
    ensures strings == Captures(s, results)
  {
    strings := [];
    for j := 0 to |results|
      invariant strings == Captures(s, results[..j])
    {
      var result := results[j];
      CapturesStep(s, results, j);
      ghost var done := Captures(s, results[..j]);
      var i := 1;
      while i < |result.ranges|
        invariant 1 <= i && i - 1 <= GroupCount(result)
        invariant strings == done + FirstGroups(s, result, i - 1)
      {
        FirstGroupsStep(s, result, i - 1);
        strings := strings + [RangeText(s, result.ranges[i])];
        i := i + 1;
      }
    }
    assert results[..|results|] == results;
  }
}
