/**
 * The `String` extension of Extensions.swift: the integer-range subscript, `truncate` and the
 * specification of what `matchesForRegex` collects. Both copies of the file (the Swift 1.x one
 * under Clutch/ and the Swift 4 one under PaymentHighway/) compute the same values here; the two
 * collection loops, which differ, live in modules Clutch and PaymentHighway.
 *
 * A Swift `String` counts Characters (grapheme clusters) and an `NSString` counts UTF-16 code
 * units; both are abstracted as `seq<char>`, one element per position.
 */
module Strings {
  import opened Wrappers

  /** The two ends of an integer range. */
  datatype Bounds = Bounds(lower: int, upper: int)

  /** Swift's `Range<Int>` (`lower ..< upper`): forming one with `lower > upper` traps. */
  type IntRange = b: Bounds | b.lower <= b.upper witness Bounds(0, 0)

  function Min(a: int, b: int): int { if a <= b then a else b }

  // ---------------------------------------------------------------------------------------------
  // subscript(r: Range<Int>) -> String

  /**
   * `s[r]`: the characters at offsets `r.lower` up to, not including, `r.upper`. The start index
   * is `startIndex` advanced by `r.lower`, the end index the start advanced by the range's width;
   * advancing an index before `startIndex` or past `endIndex` traps, hence the precondition.
   */
  function Substring(s: string, r: IntRange): (sub: string)
    requires 0 <= r.lower && r.upper <= |s|
    ensures |sub| == r.upper - r.lower
  {
    var start := r.lower;
    var end := start + (r.upper - r.lower);
    s[start..end]
  }

  /** The k-th character of `s[r]` is the string's character at `r.lower + k`. */
  lemma SubstringAt(s: string, r: IntRange, k: int)
    requires 0 <= r.lower && r.upper <= |s|
    requires 0 <= k < r.upper - r.lower
    ensures Substring(s, r)[k] == s[r.lower + k]
  {
  }

  /** Two adjacent ranges select, between them, exactly what their union selects. */
  lemma SubstringSplit(s: string, a: int, b: int, c: int)
    requires 0 <= a <= b <= c <= |s|
    ensures Substring(s, Bounds(a, b)) + Substring(s, Bounds(b, c)) == Substring(s, Bounds(a, c))
  {
    var left, right, whole := Substring(s, Bounds(a, b)), Substring(s, Bounds(b, c)), Substring(s, Bounds(a, c));
    forall k | 0 <= k < |whole| ensures (left + right)[k] == whole[k] {
      SubstringAt(s, Bounds(a, c), k);
      if k < b - a {
        SubstringAt(s, Bounds(a, b), k);
        assert (left + right)[k] == left[k];
      } else {
        SubstringAt(s, Bounds(b, c), k - (b - a));
        assert (left + right)[k] == right[k - (b - a)];
      }
    }
  }

  /** The range covering the whole string selects the string itself. */
  lemma SubstringWhole(s: string)
    ensures Substring(s, Bounds(0, |s|)) == s
  {
  }

  // ---------------------------------------------------------------------------------------------
  // truncate(length:trailing:)

  /** `trailing ?? ""` */
  function OrEmpty(trailing: Option<string>): string
  {
    match trailing
    case Some(t) => t
    case None => ""
  }

  /**
   * `s.truncate(length: length, trailing: trailing)`: when `s` is longer than `length`, its first
   * `length` characters followed by the trailer; otherwise `s`. A negative `length` is always
   * "shorter than the string" and then traps (advancing before `startIndex` in the Swift 1.x copy,
   * `prefix` of a negative length in the Swift 4 copy), hence the precondition.
   */
  function Truncate(s: string, length: int, trailing: Option<string>): (t: string)
    requires length >= 0
    ensures |t| <= length + |OrEmpty(trailing)|
    ensures |t| >= Min(length, |s|) && t[..Min(length, |s|)] == s[..Min(length, |s|)]
    ensures trailing.None? ==> t <= s
  {
    if |s| > length then s[..length] + OrEmpty(trailing) else s
  }

  /** A string no longer than `length` comes back unchanged. */
  lemma TruncateKeepsShort(s: string, length: int, trailing: Option<string>)
    requires length >= 0 && |s| <= length
    ensures Truncate(s, length, trailing) == s
  {
  }

  /** A string longer than `length` is cut to its first `length` characters, then the trailer follows. */
  lemma TruncateCutsLong(s: string, length: int, trailing: Option<string>)
    requires length >= 0 && |s| > length
    ensures var t := Truncate(s, length, trailing);
      |t| == length + |OrEmpty(trailing)| && t[..length] == s[..length] && t[length..] == OrEmpty(trailing)
  {
  }

  /**
   * Truncating twice with the same arguments is truncating once: a cut result is exactly `length`
   * characters plus the trailer, so it is either cut again to itself or (empty trailer) no longer
   * too long. With a trailer this holds of sequences; Swift's character grouping can merge a
   * trailer that starts with a combining mark into the kept text.
   */
  lemma TruncateIdempotent(s: string, length: int, trailing: Option<string>)
    requires length >= 0
    ensures Truncate(Truncate(s, length, trailing), length, trailing) == Truncate(s, length, trailing)
  {
    var t := Truncate(s, length, trailing);
    if |s| > length {
      assert t[..length] == s[..length];
    }
  }

  // ---------------------------------------------------------------------------------------------
  // matchesForRegex: what the collection loop gathers

  /** `NSRange`: a start offset and a length in the searched string. */
  datatype NSRange = NSRange(location: nat, length: nat)

  /**
   * One `NSTextCheckingResult` produced by the regular-expression engine: `ranges[0]` is the whole
   * match and `ranges[i]`, for `i >= 1`, capture group `i`; `numberOfRanges` is `|ranges|`.
   */
  datatype TextCheckingResult = TextCheckingResult(ranges: seq<NSRange>)

  /** `substring(with:)` raises unless the range lies inside the string. */
  predicate InString(s: string, r: NSRange)
  {
    r.location + r.length <= |s|
  }

  /** Every range of one match lies inside the string. */
  predicate MatchInString(s: string, m: TextCheckingResult)
  {
    forall r :: r in m.ranges ==> InString(s, r)
  }

  /**
   * Every range of every match lies inside the string, as the engine guarantees for the ranges it
   * finds. The loop reads only ranges `1 ..< numberOfRanges`; range 0, the whole match, is always
   * inside the searched string, so demanding it too excludes nothing the engine produces.
   */
  predicate RangesInString(s: string, results: seq<TextCheckingResult>)
  {
    forall m :: m in results ==> MatchInString(s, m)
  }

  /** `nsString.substring(with: range)` */
  function RangeText(s: string, r: NSRange): (t: string)
    requires InString(s, r)
    ensures |t| == r.length
  {
    Substring(s, Bounds(r.location, r.location + r.length))
  }

  /** How many capture groups a match has, i.e. how often the inner loop runs: `numberOfRanges - 1`, or none. */
  function GroupCount(m: TextCheckingResult): nat
  {
    if |m.ranges| >= 1 then |m.ranges| - 1 else 0
  }

  /** The texts of the first `c` capture groups of a match (groups `1 ... c`), in group order. */
  function FirstGroups(s: string, m: TextCheckingResult, c: nat): (g: seq<string>)
    requires MatchInString(s, m) && c <= GroupCount(m)
    ensures |g| == c
  {
    if c == 0 then []
    else
      assert m.ranges[c] in m.ranges;
      FirstGroups(s, m, c - 1) + [RangeText(s, m.ranges[c])]
  }

  /** The texts of capture groups `1 ..< numberOfRanges` of one match: what the inner loop appends. */
  function GroupTexts(s: string, m: TextCheckingResult): (g: seq<string>)
    requires MatchInString(s, m)
    ensures |g| == GroupCount(m)
  {
    FirstGroups(s, m, GroupCount(m))
  }

  /** Entry `i - 1` of a match's group texts is the text of group `i`, for every `1 <= i < numberOfRanges`. */
  lemma GroupTextsAt(s: string, m: TextCheckingResult, i: nat)
    requires MatchInString(s, m) && 1 <= i < |m.ranges|
    ensures InString(s, m.ranges[i]) && GroupTexts(s, m)[i - 1] == RangeText(s, m.ranges[i])
  {
    assert m.ranges[i] in m.ranges;
    FirstGroupsAt(s, m, GroupCount(m), i);
  }

  lemma {:induction false} FirstGroupsAt(s: string, m: TextCheckingResult, c: nat, i: nat)
    requires MatchInString(s, m) && c <= GroupCount(m) && 1 <= i <= c
    ensures InString(s, m.ranges[i]) && FirstGroups(s, m, c)[i - 1] == RangeText(s, m.ranges[i])
  {
    assert m.ranges[i] in m.ranges;
    if i < c {
      FirstGroupsAt(s, m, c - 1, i);
    }
  }

  /** The list `matchesForRegex` returns for the given matches: their group texts, match after match. */
  function Captures(s: string, results: seq<TextCheckingResult>): seq<string>
    requires RangesInString(s, results)
  {
    if results == [] then []
    else
      assert results[|results| - 1] in results;
      Captures(s, results[..|results| - 1]) + GroupTexts(s, results[|results| - 1])
  }

  /** The number of capture groups over all matches. */
  function TotalGroups(results: seq<TextCheckingResult>): nat
  {
    if results == [] then 0 else TotalGroups(results[..|results| - 1]) + GroupCount(results[|results| - 1])
  }

  lemma RangesInStringConcat(s: string, a: seq<TextCheckingResult>, b: seq<TextCheckingResult>)
    requires RangesInString(s, a) && RangesInString(s, b)
    ensures RangesInString(s, a + b)
  {
    assert forall m :: m in a + b ==> m in a || m in b;
  }

  lemma RangesInStringPrefix(s: string, results: seq<TextCheckingResult>, n: nat)
    requires RangesInString(s, results) && n <= |results|
    ensures RangesInString(s, results[..n])
  {
    assert forall m :: m in results[..n] ==> m in results;
  }

  /** One more match: what is collected up to and including match `j`. */
  lemma CapturesStep(s: string, results: seq<TextCheckingResult>, j: nat)
    requires RangesInString(s, results) && j < |results|
    ensures RangesInString(s, results[..j]) && RangesInString(s, results[..j + 1]) && MatchInString(s, results[j])
    ensures Captures(s, results[..j + 1]) == Captures(s, results[..j]) + GroupTexts(s, results[j])
  {
    assert results[j] in results;
    RangesInStringPrefix(s, results, j);
    RangesInStringPrefix(s, results, j + 1);
    assert results[..j + 1][..j] == results[..j];
  }

  /** One more group: the first `c + 1` group texts extend the first `c` by the text of group `c + 1`. */
  lemma FirstGroupsStep(s: string, m: TextCheckingResult, c: nat)
    requires MatchInString(s, m) && c < GroupCount(m)
    ensures InString(s, m.ranges[c + 1])
    ensures FirstGroups(s, m, c + 1) == FirstGroups(s, m, c) + [RangeText(s, m.ranges[c + 1])]
  {
    assert m.ranges[c + 1] in m.ranges;
  }

  /** The collected list has one entry per capture group of every match. */
  lemma {:induction false} CapturesLength(s: string, results: seq<TextCheckingResult>)
    requires RangesInString(s, results)
    ensures |Captures(s, results)| == TotalGroups(results)
  {
    if results != [] {
      RangesInStringPrefix(s, results, |results| - 1);
      CapturesLength(s, results[..|results| - 1]);
    }
  }

  /** Collecting over two runs of matches is collecting over each run and concatenating. */
  lemma {:induction false} CapturesAppend(s: string, a: seq<TextCheckingResult>, b: seq<TextCheckingResult>)
    requires RangesInString(s, a) && RangesInString(s, b)
    ensures RangesInString(s, a + b)
    ensures Captures(s, a + b) == Captures(s, a) + Captures(s, b)
  {
    RangesInStringConcat(s, a, b);
    if b == [] {
      assert a + b == a;
    } else {
      var front := b[..|b| - 1];
      RangesInStringPrefix(s, b, |b| - 1);
      CapturesAppend(s, a, front);
      assert (a + b)[..|a + b| - 1] == a + front;
      assert (a + b)[|a + b| - 1] == b[|b| - 1];
    }
  }

  /**
   * Where group `i` (i >= 1) of match `j` lands: after every group of the earlier matches and the
   * `i - 1` earlier groups of match `j`.
   */
  lemma {:induction false} CapturesAt(s: string, results: seq<TextCheckingResult>, j: nat, i: nat)
    requires RangesInString(s, results)
    requires j < |results| && 1 <= i < |results[j].ranges|
    ensures TotalGroups(results[..j]) + i - 1 < |Captures(s, results)|
    ensures InString(s, results[j].ranges[i]) &&
            Captures(s, results)[TotalGroups(results[..j]) + i - 1] == RangeText(s, results[j].ranges[i])
  {
    var n := |results| - 1;
    var front := results[..n];
    CapturesStep(s, results, n);
    assert results[..n + 1] == results;
    CapturesLength(s, front);
    if j == n {
      GroupTextsAt(s, results[j], i);
    } else {
      CapturesAt(s, front, j, i);
      assert front[..j] == results[..j] && front[j] == results[j];
    }
  }

  /**
   * Every collected entry is the text of some capture group `i >= 1` of some match: the whole
   * match (group 0) is never collected on its own account.
   */
  lemma {:induction false} CapturesOrigin(s: string, results: seq<TextCheckingResult>, k: nat)
    requires RangesInString(s, results)
    requires k < |Captures(s, results)|
    ensures exists j, i ::
              0 <= j < |results| && 1 <= i < |results[j].ranges| && InString(s, results[j].ranges[i]) &&
              Captures(s, results)[k] == RangeText(s, results[j].ranges[i])
  {
    var n := |results| - 1;
    var front, last := results[..n], results[n];
    CapturesStep(s, results, n);
    assert results[..n + 1] == results;
    var c := Captures(s, front);
    if k < |c| {
      CapturesOrigin(s, front, k);
      var j, i :| 0 <= j < |front| && 1 <= i < |front[j].ranges| && InString(s, front[j].ranges[i]) &&
        c[k] == RangeText(s, front[j].ranges[i]);
      assert front[j] == results[j];
      assert Captures(s, results)[k] == c[k];
    } else {
      var i := k - |c| + 1;
      GroupTextsAt(s, last, i);
      assert Captures(s, results)[k] == GroupTexts(s, last)[i - 1];
    }
  }

  /** Nothing is collected exactly when no match has a capture group (in particular, when there is no match). */
  lemma {:induction false} CapturesEmptyIff(s: string, results: seq<TextCheckingResult>)
    requires RangesInString(s, results)
    ensures Captures(s, results) == [] <==> forall m :: m in results ==> |m.ranges| <= 1
  {
    CapturesLength(s, results);
    TotalGroupsZeroIff(results);
  }

  lemma {:induction false} TotalGroupsZeroIff(results: seq<TextCheckingResult>)
    ensures TotalGroups(results) == 0 <==> forall m :: m in results ==> |m.ranges| <= 1
  {
    if results != [] {
      var front := results[..|results| - 1];
      TotalGroupsZeroIff(front);
      assert results == front + [results[|results| - 1]];
      assert forall m :: m in results ==> m in front || m == results[|results| - 1];
    }
  }
}
