# TNAS gestalt similarity, modelled in Dafny

TNAS scores the similarity of two strings with the Ratcliff/Obershelp
"gestalt" algorithm. `matchPattern` finds the longest common contiguous run
of two windows with a double loop. It then matches what lies before the run
and what lies after it, recursively, and returns the total length of the runs
it took. `getGestaltValue` turns that total into a whole percentage:
`matched * 200 / (len1 + len2)`, and 0 when either string is empty. The
command-line path also prepares the two arguments first: it removes spaces,
pads the shorter one with spaces, and lower-cases both when case is ignored.
It then reports the larger of the score and half the score computed with the
first string reversed.

The model follows `TNAS.cpp`:

- `runs.dfy` (`Runs`): the extension loop `k`/`m` as `RunLength`, and the facts
  about maximal runs.
- `search.dfy` (`Search`): one visit of a pair of offsets (`Probe`). This covers
  the pre-filter on `arLeft[i + arLength]` and the strict `>` update. The file
  also holds what "the longest run" means (`IsLongest`: longest, earliest in
  (i, j) order, `(0, 0)` when there is none) and the loop invariant.
- `matcher.dfy` (`Matcher`): `matchPattern` itself.
  - `Visit` is the double loop. It re-reads both bounds `i < L - arLength` and
    `j < R - arLength` after every visit.
  - `MatchAround`, `LeftMatch` and `RightMatch` are the two guarded recursive
    calls.

  Windows are sequence slices. The matcher also reads one character past the
  end of the left window: the pre-filter reads it once a recorded run reaches
  the window's end. The model makes that character a parameter `edge`, with the
  values the C++ memory holds there:
  - NUL at the top level;
  - the first character of the run, for the window before it;
  - the enclosing `edge`, for the window after it.
- `matcher_spec.dfy` (`MatcherSpec`): the double loop settles on the longest
  run, and `edge` never changes the result.
- `matcher_facts.dfy` (`MatcherFacts`): the guards lose nothing; the result is
  0 exactly when the windows share no character; it is full exactly when they
  are equal.
- `gestalt.dfy` (`Gestalt`): `getGestaltValue` and its range.
- `compare.dfy` (`Compare`): the preparation steps of `initialiseComparison`
  and the weighted result.
- `scenarios.dfy` (`Scenarios`): the built-in default pair and other concrete
  pairs.

Three facts about the code that are easy to get wrong:

- The score depends on the order of its arguments, because the search breaks
  ties between equally long runs by the earliest `(i, j)`.
  `getGestaltValue("ab", "bacb")` is 66 and `getGestaltValue("bacb", "ab")`
  is 33 (`Scenarios.NotSymmetric`).
- The weighted result `max(test1, test2 / 2)` never exceeds 100
  (`Compare.WeightedComparison`).
- Skipping the prefix call when only one of the two offsets is 0 loses
  nothing. The window it skips is empty, and an empty window matches nothing
  (`MatcherFacts.MatchAroundUnguarded`).

## Model

| member | source | states |
|---|---|---|
| Runs.RunLength | TNAS.cpp:222 | the extension from `(i, j)` never leaves either window |
| Runs.RunLengthIsMaximalRun | TNAS.cpp:222 | the extension covers a common substring and stops only at a window edge or a disagreement |
| Runs.RunLengthMaximal | TNAS.cpp:222 | every common substring starting at `(i, j)` is at most as long as the extension |
| Runs.LongerRunAgreesAt | TNAS.cpp:220-222 | a run longer than the current best agrees at the offset the pre-filter compares, so the pre-filter skips no longer run |
| Runs.RunStopsAtForeignChar | TNAS.cpp:222 | the extension stops before a left character that does not occur in the right window |
| Search.Probe | TNAS.cpp:220-229 | one visit keeps the current best or replaces it with a strictly longer run starting at `(i, j)`, never leaving the window |
| Search.ProbeRejectsNoLonger | TNAS.cpp:220-229 | a visit the pre-filter or the strict `>` turns down hides no run longer than the current best |
| Search.ProbeKeeps | TNAS.cpp:218-229 | one visit keeps the loop invariant: the best run is the longest, and the earliest of that length, among the runs already visited |
| Search.RowDone | TNAS.cpp:218 | when the inner bound `j < R - arLength` stops a row, the starts it skipped cannot hold a longer run |
| Search.SearchDone | TNAS.cpp:216 | when the outer bound `i < L - arLength` stops the search, the best run is the longest common run, and the earliest one of that length |
| Search.LongestUnique | TNAS.cpp:216-231 | the longest, earliest run is unique |
| Matcher.MatchPattern | TNAS.cpp:206-246 | the total matched is at most the length of either window |
| Matcher.Visit | TNAS.cpp:216-246 | the search and the recursion after it match at most the length of either window |
| Matcher.MatchAround | TNAS.cpp:233-245 | no run gives 0; a run is always counted in full, and the total never exceeds either window's length |
| Matcher.LeftMatch | TNAS.cpp:242 | the prefix call matches at most the two prefix lengths |
| Matcher.RightMatch | TNAS.cpp:243 | the suffix call matches at most the two remainder lengths |
| MatcherSpec.SearchReachesLongest | TNAS.cpp:216-231 | from any state that meets the loop invariant, the search reaches a longest run |
| MatcherSpec.LongestExists | TNAS.cpp:216-231 | every pair of windows has a longest, earliest common run |
| MatcherSpec.VisitTakesLongest | TNAS.cpp:216-246 | the double loop, however far it has run, goes on with the longest and earliest run of the two windows |
| MatcherSpec.VisitNextRow | TNAS.cpp:216-218 | moving to the next row keeps the matcher on the longest run |
| MatcherSpec.VisitProbes | TNAS.cpp:218-229 | visiting `(i, j)` keeps the matcher on the longest run |
| MatcherSpec.LongestSpec | TNAS.cpp:216-231 | the run the matcher takes is the longest common run, the earliest in `(i, j)` order |
| MatcherSpec.MatchPatternTakesLongest | TNAS.cpp:206-246 | `matchPattern` equals the recursion around the longest, earliest common run, whatever character lies past the window |
| MatcherSpec.LongestIsCommon | TNAS.cpp:222-229 | the chosen run is a common substring of both windows |
| MatcherSpec.LongestIsLongestCommonSubstring | TNAS.cpp:216-231 | no common substring of the two windows is longer than the chosen run |
| MatcherSpec.MatchPatternIgnoresEdge | TNAS.cpp:220 | the character the pre-filter reads past the window never changes the result |
| MatcherFacts.MatchAroundUnguarded | TNAS.cpp:242-243 | the guards on both recursive calls lose nothing: the result equals the unguarded recursion |
| MatcherFacts.MatchPatternCoversLongest | TNAS.cpp:233-245 | the total is at least the longest common run |
| MatcherFacts.NothingMatchedMeansDisjoint | TNAS.cpp:234 | a total of 0 means the windows share no character |
| MatcherFacts.MatchedMeansShared | TNAS.cpp:220-229 | a positive total means the windows share a character |
| MatcherFacts.MatchPatternZeroIff | TNAS.cpp:216-234 | the total is 0 exactly when the windows share no character |
| MatcherFacts.MatchPatternSelf | TNAS.cpp:216-245 | a window matched against itself is matched in full |
| MatcherFacts.Reassemble | TNAS.cpp:236-243 | windows that agree before, on and after a run at one offset are equal |
| MatcherFacts.FullMatchSplits | TNAS.cpp:236-245 | a full match of equal-length windows takes a run at the same offset in both and matches both sides of it in full |
| MatcherFacts.FullMatchMeansEqual | TNAS.cpp:206-246 | a total equal to both window lengths means the windows are equal |
| MatcherFacts.MatchPatternFullIffEqual | TNAS.cpp:206-246 | both windows are matched in full exactly when they are equal |
| Gestalt.GestaltValue | TNAS.cpp:196-204 | the score is 0 when either string is empty, and never more than 100 |
| Gestalt.Percent | TNAS.cpp:203 | the truncated percentage of a count that fits in both lengths is at most 100 |
| Gestalt.PercentAtMostHundred | TNAS.cpp:203 | `m * 200 / (n1 + n2)` is at most 100 when `m` fits in both lengths |
| Gestalt.PercentHundredIff | TNAS.cpp:203 | the truncated percentage is exactly 100 when, and only when, the count equals both lengths |
| Gestalt.PercentMonotone | TNAS.cpp:203 | more matched characters never lower the percentage |
| Gestalt.GestaltHundredMeansFullMatch | TNAS.cpp:196-204 | the score is 100 exactly when both non-empty strings are matched in full |
| Gestalt.GestaltHundredIffEqual | TNAS.cpp:196-204 | the score is 100 exactly when the strings are equal and non-empty |
| Gestalt.GestaltZeroWhenDisjoint | TNAS.cpp:196-204 | strings with no common character score 0 |
| Gestalt.GestaltPositiveWhenShared | TNAS.cpp:196-204 | strings that share a character and are at most 200 characters long together score above 0 |
| Gestalt.GestaltCoversLongest | TNAS.cpp:196-204 | the score is at least the percentage of the longest common run |
| Compare.RemoveSpaces | TNAS.cpp:124-125 | the result has no space and is no longer than the argument |
| Compare.RemoveSpacesKeepsOthers | TNAS.cpp:124-125 | every character other than a space keeps its number of occurrences |
| Compare.RemoveSpacesAppend | TNAS.cpp:124-125 | spaces are removed piece by piece, so the other characters keep their order |
| Compare.RemoveSpacesFixesSpaceFree | TNAS.cpp:124-125 | a string without spaces is left unchanged |
| Compare.Spaces | TNAS.cpp:131-132 | the padding is `k` space characters |
| Compare.PadTo | TNAS.cpp:131-132 | padding keeps the string as a prefix, appends only spaces, and reaches the other string's length |
| Compare.TrailingSpacesRemovable | TNAS.cpp:124-132 | removing spaces from a padded space-free string gives the string back |
| Compare.SpacesRemoved | TNAS.cpp:131-132 | padding alone loses all of itself when spaces are removed |
| Compare.LowerChar | TNAS.cpp:141-142 | `tolower` in the "C" locale maps `A`-`Z` to `a`-`z` and leaves every other character alone |
| Compare.Lower | TNAS.cpp:141-142 | lower-casing keeps the length |
| Compare.LowerIdempotent | TNAS.cpp:141-142 | lower-casing leaves no capital letter, and doing it twice changes nothing more |
| Compare.LowerKeepsSpacesAndNul | TNAS.cpp:139-143 | lower-casing neither creates nor removes spaces or NULs |
| Compare.FoldCase | TNAS.cpp:139-143 | case folding keeps the length |
| Compare.Reverse | TNAS.cpp:151 | the reversed string has the same length, and position `k` holds the character at `|s| - 1 - k` |
| Compare.ReverseTwice | TNAS.cpp:151 | reversing twice gives the string back |
| Compare.ReverseKeepsCharacters | TNAS.cpp:151 | reversing keeps every character's number of occurrences |
| Compare.PadAndFold | TNAS.cpp:131-143 | a padded argument reaches the other argument's length |
| Compare.Prepare | TNAS.cpp:119-143 | both prepared strings have the same length: that of the longer space-free argument |
| Compare.PadAndFoldKeepsNoNul | TNAS.cpp:131-143 | padding and case folding add no NUL |
| Compare.PrepareKeepsNoNul | TNAS.cpp:119-143 | preparing NUL-free arguments leaves them NUL-free |
| Compare.PadAndFoldShape | TNAS.cpp:131-143 | a prepared string is the folded space-free argument followed only by pad spaces |
| Compare.FoldCasePadded | TNAS.cpp:131-143 | case folding keeps the pad spaces and creates no space |
| Compare.PadToSpaces | TNAS.cpp:131-132 | a padded string is the string followed by spaces |
| Compare.PaddedEqual | TNAS.cpp:131-132 | two space-free strings that are equal once padded are equal |
| Compare.WeightedComparison | TNAS.cpp:145-154 | the weighted result is at most 100 |
| Compare.WeightedFavoursDirect | TNAS.cpp:151-154 | the weighted result is at least the direct score, and exceeds it only up to 50 |
| Compare.WeightedHundredIff | TNAS.cpp:119-154 | the result is 100 exactly when the arguments are equal and not all spaces, after spaces are removed and, when case is ignored, letters are folded |
| Scenarios.DefaultLongest | TNAS.cpp:170-171 | in the default pair the longest run is "aabb" at the start of both strings |
| Scenarios.DefaultRemainder | TNAS.cpp:170-171 | after that run, "ccdd" against "CCDD" matches nothing |
| Scenarios.DefaultComparison | TNAS.cpp:170-176 | the default pair scores 50 case-sensitively |
| Scenarios.IdenticalScoresHundred | TNAS.cpp:196-246 | a non-empty string scores 100 against itself |
| Scenarios.CaseAndSpacesFold | TNAS.cpp:124-143 | without spaces and with case folded, "Ab c" and "aBC" are the same |
| Scenarios.IgnoringCase | TNAS.cpp:119-154 | with case ignored, "Ab c" against "aBC" reports 100 |
| Scenarios.SpacesIgnored | TNAS.cpp:119-154 | "a b" against "ab" reports 100 |
| Scenarios.AbBacbLongest | TNAS.cpp:216-231 | the first longest run of "ab" in "bacb" is the "a" at `(0, 1)` |
| Scenarios.BacbAbLongest | TNAS.cpp:216-231 | the first longest run of "bacb" in "ab" is the "b" at `(0, 1)` |
| Scenarios.MatchAbBacb | TNAS.cpp:206-246 | "ab" against "bacb" matches 2 characters |
| Scenarios.MatchBCb | TNAS.cpp:206-246 | "b" against "cb" matches 1 character |
| Scenarios.MatchBacbAb | TNAS.cpp:206-246 | "bacb" against "ab" matches 1 character |
| Scenarios.NotSymmetric | TNAS.cpp:196-246 | swapping the arguments can change the score: 66 one way, 33 the other |

## Left out

- Command-line handling, printing and the interactive prompt (`main`,
  `commandLineUsage`, `requestDefaultComparison` apart from its fixed pair). These
  are input and output only.
- Parsing of the ignore-case argument (`"true"`, or a number read through a
  string stream, TNAS.cpp:134-136). `Compare.WeightedComparison` takes the
  resulting flag as a `bool` parameter.
- `::tolower` in other locales. The program never sets a locale, so the model
  uses the "C" locale, where only `A`-`Z` change. The model does not follow
  `::tolower` on a negative `char` (a byte of 0x80 or more where `char` is
  signed), which is undefined behaviour in C++.
- Text outside ASCII. One Dafny `char` stands for one C++ `char`, which is one
  byte, so the model's strings are byte strings: every character is below
  256. The C++ sees command-line text as UTF-8 bytes, so for non-ASCII text
  its lengths and matches count bytes. Reading the same text as code points
  in the model gives a different score: "éa" against "ae" is
  `1 * 200 / (3 + 2) = 40` in the C++ and 50 on code points.
- Strings containing NUL. The C++ recursion rebuilds each window from a
  `const char*`, which stops at the first NUL, so such strings behave
  differently there. `Gestalt.GestaltValue` and `Compare.WeightedComparison`
  require NUL-free arguments; command-line arguments and literals cannot
  contain NUL.
- Gestalt.GestaltValue: does not model 32-bit `int` overflow of `matched * 200`
  or of the lengths. Lengths are unbounded `nat`, and the bound of 100 holds
  only while `matched * 200` fits in an `int`, that is for windows under about
  ten million characters.
- Symmetry is not stated, because the code does not have it.
  `Scenarios.NotSymmetric` gives a pair that shows this.
