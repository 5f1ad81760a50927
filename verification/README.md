# Payment Highway iOS SDK: string and colour extensions

A Dafny model of the small utility layer of the Payment Highway (formerly Clutch) iOS SDK. The
SDK's `Extensions.swift` exists twice, an older Swift 1.x copy (`Clutch/Extensions.swift`) and a
Swift 4 copy (`PaymentHighway/Extensions.swift`); both add to `String` an integer-range subscript,
`truncate(length:trailing:)` and `matchesForRegex`, and to `UIColor` the initialisers
`init(red:green:blue:)` and `init(hexInt:)`.

- `Wrappers.dfy`: `Option` (Swift's optional) and `Result`.
- `Strings.dfy`: the range subscript, `truncate`, and the specification `Captures` of what
  `matchesForRegex` collects, with its properties. Both copies compute the same values for these.
- `Clutch.dfy`, `PaymentHighway.dfy`: the collection loop of `matchesForRegex` in each copy. They
  differ in one edge: the Swift 1.x C-style loop does nothing for a result with no range, whereas
  the Swift 4 `1 ..< numberOfRanges` traps there (the matching engine never produces such a result).
- `Colors.dfy`: the 0-255 checks of `init(red:green:blue:)` and the shift-and-mask of `init(hexInt:)`.

Strings are `seq<char>`. A Swift `String` counts grapheme clusters and an `NSString` counts UTF-16
code units; the model uses one element per position for both. `>>` on Swift's `Int` is an
arithmetic shift, which is Dafny's `/` by a power of two (rounding down), and `& 0xff` is Dafny's
`% 256`; both agree with two's-complement arithmetic for negative values. The width of `Int` does
not matter beyond 24 bits, so `int` stands for it. A trap in the source (advancing a string index
out of bounds, a negative `prefix`, an out-of-range `substring(with:)`, forming `1 ..< 0`) is a
precondition. A failing `assert` in `init(red:green:blue:)` is a `Failure` that names the first
failing component.

The two copies line up as follows. The subscript is at lines 30-36 of both. The collection loop is
at lines 50-59 of both. `truncate` is at Clutch 65-71 and PaymentHighway 65-67. The RGB checks are at
Clutch 83-89 and PaymentHighway 79-85. `init(hexInt:)` is at Clutch 93-95 and PaymentHighway 89-91.
Each row below cites one of the two copies. The same member models the same lines of the other copy.

## Model

| member | source | states |
|---|---|---|
| `Strings.Substring` | Clutch/Extensions.swift:30-36 | needs `0 <= lower <= upper <= count` (advancing an index out of the string traps); returns exactly `upper - lower` characters |
| `Strings.SubstringAt` | Clutch/Extensions.swift:32-35 | the k-th character of `s[lower ..< upper]` is the string's character at `lower + k` |
| `Strings.SubstringSplit` | PaymentHighway/Extensions.swift:30-36 | the substrings of two adjacent ranges `a..<b` and `b..<c` concatenate to the substring of `a..<c` |
| `Strings.SubstringWhole` | PaymentHighway/Extensions.swift:32-35 | the range `0..<count` gives back the whole string |
| `Strings.Truncate` | Clutch/Extensions.swift:65-71 | needs `length >= 0`; the result is at most `length` plus the length of the trailer long, always starts with the first `min(length, count)` characters, and with a nil trailer is a prefix of the input |
| `Strings.TruncateKeepsShort` | Clutch/Extensions.swift:66-70 | a string of at most `length` characters is returned unchanged |
| `Strings.TruncateCutsLong` | PaymentHighway/Extensions.swift:66 | a longer string becomes its first `length` characters followed by the trailer (`trailing ?? ""`), exactly `length` plus the trailer's length long (as sequences; see Left out for Swift's character grouping) |
| `Strings.TruncateIdempotent` | PaymentHighway/Extensions.swift:62-67 | truncating a truncated string with the same arguments changes nothing; proved for any trailer as sequences, which in Swift holds for a nil trailer (see Left out) |
| `Strings.RangeText` | Clutch/Extensions.swift:54-55 | `substring(with:)` of a range inside the string has the range's length; it is the range subscript from `location` to `location + length` |
| `Strings.GroupTexts` | Clutch/Extensions.swift:53-56 | for one match, the inner loop appends `numberOfRanges - 1` texts (none for a result without ranges) |
| `Strings.GroupTextsAt` | PaymentHighway/Extensions.swift:53-55 | entry `i - 1` of a match's appended texts is the text of its group `i`, for each `1 <= i < numberOfRanges`: groups in order, group 0 skipped |
| `Strings.CapturesLength` | Clutch/Extensions.swift:50-59 | the collected list has as many entries as there are capture groups over all matches (the sum of `numberOfRanges - 1`) |
| `Strings.CapturesAppend` | PaymentHighway/Extensions.swift:52-57 | collecting over two consecutive runs of matches concatenates what each run collects: matches are taken in order |
| `Strings.CapturesAt` | Clutch/Extensions.swift:52-57 | group `i >= 1` of match `j` sits right after all groups of matches `0..<j` and groups `1..<i` of match `j` |
| `Strings.CapturesOrigin` | Clutch/Extensions.swift:53-55 | every collected entry is the text of some group `i >= 1` of some match; group 0 (the whole match) is never collected as such |
| `Strings.CapturesEmptyIff` | PaymentHighway/Extensions.swift:50-59 | the result is empty exactly when no match has a capture group, in particular when there is no match |
| `Clutch.MatchesForRegex` | Clutch/Extensions.swift:41-60 | the nested `for result in results` / C-style `for var i = 1` loop returns exactly `Captures` of the matches |
| `PaymentHighway.MatchesForRegex` | PaymentHighway/Extensions.swift:41-60 | the nested `for result in results` / `for i in 1 ..< numberOfRanges` loop, given results with at least one range each, returns exactly `Captures` of the matches |
| `Colors.ColorFromComponents` | Clutch/Extensions.swift:83-89 | succeeds exactly when red, green and blue all lie in 0...255, then holding those three values; otherwise fails on red first, then green, then blue |
| `Colors.ColorFromHex` | PaymentHighway/Extensions.swift:89-91 | for every integer the three masked components pass the 0...255 checks, so the asserts can never fire on this path |
| `Colors.HexRecombines` | PaymentHighway/Extensions.swift:87-90 | for `0 <= hexInt <= 0xFFFFFF`, shifting red by 16 and green by 8 and combining them with blue gives back `hexInt` |
| `Colors.HexOfColor` | Clutch/Extensions.swift:91-94 | conversely, any valid (red, green, blue) is decoded from its hex value |
| `Colors.HexPeriodic` | Clutch/Extensions.swift:93-94 | adding any multiple of 2^24 to `hexInt` leaves all three components unchanged |
| `Colors.HexIgnoresHighBits` | PaymentHighway/Extensions.swift:89-90 | the components of `hexInt` are those of its low 24 bits, also for negative `hexInt` |

## Left out

- The regular-expression engine (`NSRegularExpression`): the model takes its list of matches as input. Compiling an invalid pattern traps (`!` / `try!`) and is not modelled.
- Capture groups that do not take part in a match (pattern `(a)?b` on `"b"`): the engine reports them as a range at `NSNotFound`, and `substring(with:)` at line 55 of both copies then raises, so the source crashes on such input. The precondition that every range lies inside the string excludes these inputs; the model does not describe the crash.
- The division of each component by 255.0 into a `CGFloat`, and the alpha of 1.0: floating point with no logic.
- `assert` is checked only in debug builds. In a release build `init(red:green:blue:)` passes any components through. The model follows the debug build.
- The `Inset` struct: two stored `CGFloat` values, no logic.
- `presentSPHAddCardViewController`: UIKit storyboard, navigation and popover glue.
- The networking client and its integration tests: HTTP calls against a live server with asynchronous callbacks.
- The difference between Character counts and UTF-16 lengths: both are one `seq<char>` element per position.
- Strings.Truncate: its length bound and "starts with the first `min(length, count)` characters" hold of the concatenation of sequences; Swift's `+` regroups characters, so a trailer that starts with a combining mark merges into the last kept character and the Swift result is shorter and its last kept character differs. With a nil trailer the two agree.
- Strings.TruncateCutsLong: "exactly `length` plus the trailer's length" and "the first `length` characters are the input's" hold of sequence concatenation, not of Swift's character grouping when the trailer joins the kept text (a trailer starting with a combining mark).
- Strings.TruncateIdempotent: with a non-nil trailer it holds of sequences only; in Swift a trailer starting with a combining mark merges into the cut text, so truncating again appends it once more. With a nil trailer it holds of the source too.
