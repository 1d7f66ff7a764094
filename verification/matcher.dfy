/** The recursive matcher: search the two windows for their longest common
    run, then match what lies before it and what lies after it, and add up
    the lengths of all runs taken.

    A window is the part of a string the matcher may use. The matcher also
    reads one character past the end of the left window (see `Search.Probe`);
    `edge` is that character: the string's terminating NUL at the top level,
    the first character of the chosen run for the window before it, and the
    enclosing window's own `edge` for the window after it. */
module Matcher {
  import opened Runs
  import opened Search

  /** Total length of all runs the matcher takes from windows `l` and `r`.
      An empty left window skips the search and matches nothing. */
  function MatchPattern(l: string, r: string, edge: char): (m: nat)
    ensures m <= |l| && m <= |r|
    decreases |l| + |r|, 3
  {
    if 0 < |l| then Visit(l, r, edge, 0, 0, NoRun) else 0
  }

  /** The double loop of the search, about to test the inner bound at
      (i, j) with best run `b` so far. The inner loop runs `j` upwards while
      `j < |r| - b.len`; when it stops, the outer loop moves to row `i + 1`
      while `i + 1 < |l| - b.len`. Both bounds are read again after every
      visit, since `b.len` grows. When the outer loop stops, the matcher
      goes on with the run it found. */
  function Visit(l: string, r: string, edge: char, i: nat, j: nat, b: Best): (m: nat)
    requires i < |l| && i + b.len <= |l| && Recorded(l, r, b)
    ensures m <= |l| && m <= |r|
    decreases |l| + |r|, 2, |l| - i, |r| - j
  {
    if j + b.len < |r| then
      Visit(l, r, edge, i, j + 1, Probe(l, r, i, j, b, edge))
    else if i + 1 + b.len < |l| then
      Visit(l, r, edge, i + 1, 0, b)
    else
      MatchAround(l, r, edge, b)
  }

  /** What the matcher does once the search has settled on run `b`: nothing
      if no run was found; otherwise the run's length plus what it matches
      before the run and after it. */
  function MatchAround(l: string, r: string, edge: char, b: Best): (m: nat)
    requires Recorded(l, r, b)
    ensures m <= |l| && m <= |r|
    ensures b.len == 0 ==> m == 0
    ensures b.len <= m
    decreases |l| + |r|, 1
  {
    if b.len == 0 then 0
    else b.len + LeftMatch(l, r, b) + RightMatch(l, r, edge, b)
  }

  /** The match of the windows before run `b`, taken only when both start
      offsets are non-zero. The character past the shortened left window
      is the first character of the run. */
  function LeftMatch(l: string, r: string, b: Best): (m: nat)
    requires Recorded(l, r, b) && b.len > 0
    ensures m <= b.i && m <= b.j
    decreases |l| + |r|, 0
  {
    if b.i != 0 && b.j != 0 then MatchPattern(l[..b.i], r[..b.j], l[b.i]) else 0
  }

  /** The match of the windows after run `b`, taken only when both
      remainders are non-empty. The character past the left remainder is
      the one past the whole left window. */
  function RightMatch(l: string, r: string, edge: char, b: Best): (m: nat)
    requires Recorded(l, r, b) && b.len > 0
    ensures m <= |l| - (b.i + b.len) && m <= |r| - (b.j + b.len)
    decreases |l| + |r|, 0
  {
    var leftAfter := b.i + b.len;
    var rightAfter := b.j + b.len;
    if |l| - leftAfter != 0 && |r| - rightAfter != 0
    then MatchPattern(l[leftAfter..], r[rightAfter..], edge) else 0
  }
}
