/** What the search inside the matcher settles on: the longest common run
    of the two windows, the earliest in (i, j) order among equally long ones,
    whatever character lies past the left window. */
module MatcherSpec {
  import opened Runs
  import opened Search
  import opened Matcher

  /** From any state where the loop invariant holds, the search goes on to
      a longest run. */
  lemma {:induction false} SearchReachesLongest(l: string, r: string, i: nat, j: nat, b: Best)
    requires i < |l| && i + b.len <= |l|
    requires ScanInv(l, r, i, j, b)
    ensures exists w :: IsLongest(l, r, w)
    decreases |l| - i, |r| - j
  {
    if j + b.len < |r| {
      ProbeKeeps(l, r, i, j, b, '\0');
      SearchReachesLongest(l, r, i, j + 1, Probe(l, r, i, j, b, '\0'));
    } else {
      RowDone(l, r, i, j, b);
      if i + 1 + b.len < |l| {
        SearchReachesLongest(l, r, i + 1, 0, b);
      } else {
        SearchDone(l, r, i + 1, b);
      }
    }
  }

  /** Every pair of windows has a longest run in the sense of `IsLongest`. */
  lemma LongestExists(l: string, r: string)
    ensures exists b :: IsLongest(l, r, b)
  {
    if |l| > 0 {
      SearchReachesLongest(l, r, 0, 0, NoRun);
    } else {
      assert IsLongest(l, r, NoRun);
    }
  }

  /** From any state where the loop invariant holds, the rest of the search
      settles on the longest run `w`, and the matcher goes on with it. */
  lemma {:induction false} VisitTakesLongest(l: string, r: string, edge: char, i: nat, j: nat, b: Best, w: Best)
    requires i < |l| && i + b.len <= |l|
    requires ScanInv(l, r, i, j, b) && IsLongest(l, r, w)
    ensures Visit(l, r, edge, i, j, b) == MatchAround(l, r, edge, w)
    decreases |l| - i, |r| - j
  {
    if j + b.len < |r| {
      VisitProbes(l, r, edge, i, j, b, w);
    } else if i + 1 + b.len < |l| {
      VisitNextRow(l, r, edge, i, j, b, w);
    } else {
      RowDone(l, r, i, j, b);
      SearchDone(l, r, i + 1, b);
      LongestUnique(l, r, b, w);
    }
  }

  lemma {:induction false} VisitProbes(l: string, r: string, edge: char, i: nat, j: nat, b: Best, w: Best)
    requires i < |l| && i + b.len <= |l| && j + b.len < |r|
    requires ScanInv(l, r, i, j, b) && IsLongest(l, r, w)
    ensures Visit(l, r, edge, i, j, b) == MatchAround(l, r, edge, w)
    decreases |l| - i, |r| - j, 0
  {
    ProbeKeeps(l, r, i, j, b, edge);
    VisitTakesLongest(l, r, edge, i, j + 1, Probe(l, r, i, j, b, edge), w);
  }

  lemma {:induction false} VisitNextRow(l: string, r: string, edge: char, i: nat, j: nat, b: Best, w: Best)
    requires i + 1 + b.len < |l| && j + b.len >= |r|
    requires ScanInv(l, r, i, j, b) && IsLongest(l, r, w)
    ensures Visit(l, r, edge, i, j, b) == MatchAround(l, r, edge, w)
    decreases |l| - i, |r| - j, 0
  {
    assert Visit(l, r, edge, i, j, b) == Visit(l, r, edge, i + 1, 0, b);
    RowDone(l, r, i, j, b);
    VisitTakesLongest(l, r, edge, i + 1, 0, b, w);
  }

  /** The longest run of two windows (unique by `LongestUnique`). */
  ghost function Longest(l: string, r: string): Best {
    LongestExists(l, r);
    var b :| IsLongest(l, r, b); b
  }

  /** `Longest` meets its description. */
  lemma LongestSpec(l: string, r: string)
    ensures IsLongest(l, r, Longest(l, r))
  {
    LongestExists(l, r);
  }

  /** The matcher on two windows is the matcher around their longest run,
      whatever character lies past the left window. */
  lemma MatchPatternTakesLongest(l: string, r: string, edge: char)
    ensures IsLongest(l, r, Longest(l, r))
    ensures MatchPattern(l, r, edge) == MatchAround(l, r, edge, Longest(l, r))
  {
    LongestExists(l, r);
    if |l| > 0 {
      VisitTakesLongest(l, r, edge, 0, 0, NoRun, Longest(l, r));
    }
  }

  /** The run the matcher takes is a common substring of the two windows. */
  lemma LongestIsCommon(l: string, r: string)
    ensures var b := Longest(l, r);
      b.i + b.len <= |l| && b.j + b.len <= |r| && l[b.i..b.i + b.len] == r[b.j..b.j + b.len]
  {
    var b := Longest(l, r);
    MatchPatternTakesLongest(l, r, '\0');
    if b.len > 0 {
      RunLengthIsMaximalRun(l, r, b.i, b.j);
    }
  }

  /** No common substring of the two windows is longer than the run the
      matcher takes. */
  lemma LongestIsLongestCommonSubstring(l: string, r: string, a: nat, c: nat, n: nat)
    requires a + n <= |l| && c + n <= |r| && l[a..a + n] == r[c..c + n]
    ensures n <= Longest(l, r).len
  {
    MatchPatternTakesLongest(l, r, '\0');
    RunLengthMaximal(l, r, a, c, n);
    if n > 0 {
      assert RunLength(l, r, a, c) <= Longest(l, r).len;
    }
  }

  /** The character the search reads past the left window never changes
      what the matcher returns. */
  lemma {:induction false} MatchPatternIgnoresEdge(l: string, r: string, e1: char, e2: char)
    ensures MatchPattern(l, r, e1) == MatchPattern(l, r, e2)
    decreases |l| + |r|
  {
    var b := Longest(l, r);
    MatchPatternTakesLongest(l, r, e1);
    MatchPatternTakesLongest(l, r, e2);
    if b.len > 0 && |l| - (b.i + b.len) != 0 && |r| - (b.j + b.len) != 0 {
      MatchPatternIgnoresEdge(l[b.i + b.len..], r[b.j + b.len..], e1, e2);
    }
  }
}
