/** Common runs: the forward extension step of the Ratcliff/Obershelp matcher
    and the facts about it that the longest-run search relies on.

    A window is a string value; a run starting at `l[i]` and `r[j]` is a
    stretch of characters on which the two windows agree position by position. */
module Runs {

  /** Length of the run of agreeing characters that starts at `l[i]` and `r[j]`,
      never leaving either window. This is the `k`/`m` extension loop of the
      matcher: it stops at the first disagreement or at a window edge,
      whichever comes first. */
  function RunLength(l: string, r: string, i: nat, j: nat): (n: nat)
    requires i <= |l| && j <= |r|
    ensures i + n <= |l| && j + n <= |r|
    decreases |l| - i
  {
    if i < |l| && j < |r| && l[i] == r[j] then 1 + RunLength(l, r, i + 1, j + 1) else 0
  }

  /** The run is a common substring of the two windows that cannot be
      extended: it ends at a window edge or at a disagreement. */
  lemma {:induction false} RunLengthIsMaximalRun(l: string, r: string, i: nat, j: nat)
    requires i <= |l| && j <= |r|
    ensures var n := RunLength(l, r, i, j);
      && l[i..i + n] == r[j..j + n]
      && (i + n == |l| || j + n == |r| || l[i + n] != r[j + n])
    decreases |l| - i
  {
    if i < |l| && j < |r| && l[i] == r[j] {
      RunLengthIsMaximalRun(l, r, i + 1, j + 1);
      var n := RunLength(l, r, i, j);
      assert l[i..i + n] == [l[i]] + l[i + 1..i + n];
      assert r[j..j + n] == [r[j]] + r[j + 1..j + n];
    }
  }

  /** A window is the concatenation of its three pieces around a run. */
  lemma SplitAround(s: string, a: nat, b: nat)
    requires a <= b <= |s|
    ensures s == s[..a] + s[a..b] + s[b..]
  {
    assert s[..a] + s[a..b] == s[..b];
  }

  /** Every common substring starting at (i, j) is covered by the run there:
      the run is the longest common substring anchored at that pair. */
  lemma RunLengthMaximal(l: string, r: string, i: nat, j: nat, n: nat)
    requires i + n <= |l| && j + n <= |r|
    requires l[i..i + n] == r[j..j + n]
    ensures n <= RunLength(l, r, i, j)
  {
    RunLengthIsMaximalRun(l, r, i, j);
  }

  /** A run longer than `n` agrees at offset `n`; this is why the pre-filter
      of the search may skip any pair that disagrees there. */
  lemma LongerRunAgreesAt(l: string, r: string, i: nat, j: nat, n: nat)
    requires i <= |l| && j <= |r|
    requires n < RunLength(l, r, i, j)
    ensures l[i + n] == r[j + n]
  {
    RunLengthIsMaximalRun(l, r, i, j);
    var m := RunLength(l, r, i, j);
    assert l[i + n] == l[i..i + m][n] == r[j..j + m][n] == r[j + n];
  }

  /** A run cannot pass a character of the left window that the right window
      does not contain at all. */
  lemma RunStopsAtForeignChar(l: string, r: string, i: nat, j: nat, k: nat)
    requires i <= k < |l| && j <= |r|
    requires l[k] !in r
    ensures RunLength(l, r, i, j) <= k - i
  {
    if RunLength(l, r, i, j) > k - i {
      LongerRunAgreesAt(l, r, i, j, k - i);
    }
  }
}
