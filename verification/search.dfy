/** The longest-run search of the matcher: one visit of a pair of start
    offsets (the pre-filter at offset `i + best` and the strict `>` update),
    what "the longest run" means, and the loop invariant that carries the
    double loop (`Matcher.Visit`) to it: the longest common run of the two
    windows, the earliest in (i, j) order when several are equally long. */
module Search {
  import opened Runs

  /** The best run found so far: its length and its start in each window. */
  datatype Best = Best(len: nat, i: nat, j: nat)

  /** The state before the search: no run, both offsets zero. */
  const NoRun := Best(0, 0, 0)

  /** The run lies inside both windows. */
  predicate Fits(l: string, r: string, b: Best) {
    b.i + b.len <= |l| && b.j + b.len <= |r|
  }

  /** A state the search can be in: the run lies inside both windows, and
      the offsets are still zero while nothing has been found. */
  predicate Recorded(l: string, r: string, b: Best) {
    Fits(l, r, b) && (b.len == 0 ==> b == NoRun)
  }

  /** (a, c) is visited before (i, j): the search runs `i` in the outer loop
      and `j` in the inner one, both upwards. */
  predicate Before(a: nat, c: nat, i: nat, j: nat) {
    a < i || (a == i && c < j)
  }

  /** Every run starting before (i, j) has length at most `n`. */
  ghost predicate NoLongerBefore(l: string, r: string, i: nat, j: nat, n: nat) {
    forall a: nat, c: nat :: a < |l| && c < |r| && Before(a, c, i, j) ==> RunLength(l, r, a, c) <= n
  }

  /** Every run starting before (i, j) is strictly shorter than `n`. */
  ghost predicate ShorterBefore(l: string, r: string, i: nat, j: nat, n: nat) {
    forall a: nat, c: nat :: a < |l| && c < |r| && Before(a, c, i, j) ==> RunLength(l, r, a, c) < n
  }

  /** `b` is the run the search must report: no run of the two windows is
      longer, it is the first run of that length in (i, j) order, and it is
      `NoRun` when the windows share no character. */
  ghost predicate IsLongest(l: string, r: string, b: Best) {
    && Recorded(l, r, b)
    && (forall a: nat, c: nat :: a < |l| && c < |r| ==> RunLength(l, r, a, c) <= b.len)
    && (b.len > 0 ==> RunLength(l, r, b.i, b.j) == b.len)
    && ShorterBefore(l, r, b.i, b.j, b.len)
  }

  /** One visit of the pair (i, j): the pre-filter compares `l[i]` with `r[j]`
      and the characters `b.len` further on; a candidate that passes is
      extended from `i + 1`, `j + 1`, and replaces `b` only if strictly longer.

      While the inner loop runs, `i + b.len` can reach the end of the left
      window (after a run that ends there was recorded on this row). The
      pre-filter then reads the character just past the window: the tail of
      the enclosing string or its terminating NUL. `edge` stands for it. */
  function Probe(l: string, r: string, i: nat, j: nat, b: Best, edge: char): (b': Best)
    requires i < |l| && i + b.len <= |l| && j + b.len < |r|
    ensures i + b'.len <= |l|
    ensures Recorded(l, r, b) ==> Recorded(l, r, b')
    ensures b' == b || (b' == Best(b'.len, i, j) && b'.len > b.len && RunLength(l, r, i, j) == b'.len)
  {
    var ahead := if i + b.len < |l| then l[i + b.len] else edge;
    if l[i] == r[j] && ahead == r[j + b.len] then
      var run := 1 + RunLength(l, r, i + 1, j + 1);
      if run > b.len then Best(run, i, j) else b
    else
      b
  }

  /** What holds each time the search is about to visit (i, j). */
  ghost predicate ScanInv(l: string, r: string, i: nat, j: nat, b: Best) {
    && Recorded(l, r, b)
    && (b.len > 0 ==> RunLength(l, r, b.i, b.j) == b.len && Before(b.i, b.j, i, j))
    && NoLongerBefore(l, r, i, j, b.len)
    && ShorterBefore(l, r, b.i, b.j, b.len)
  }

  /** A visit the pre-filter or the strict test turns down never hides a run
      longer than the current best. */
  lemma ProbeRejectsNoLonger(l: string, r: string, i: nat, j: nat, b: Best, edge: char)
    requires i < |l| && i + b.len <= |l| && j + b.len < |r|
    requires Probe(l, r, i, j, b, edge) == b
    ensures RunLength(l, r, i, j) <= b.len
  {
    if RunLength(l, r, i, j) > b.len {
      LongerRunAgreesAt(l, r, i, j, b.len);
    }
  }

  /** One visit keeps the loop invariant, moving on to (i, j + 1). */
  lemma ProbeKeeps(l: string, r: string, i: nat, j: nat, b: Best, edge: char)
    requires i < |l| && i + b.len <= |l| && j + b.len < |r|
    requires ScanInv(l, r, i, j, b)
    ensures ScanInv(l, r, i, j + 1, Probe(l, r, i, j, b, edge))
  {
    var b' := Probe(l, r, i, j, b, edge);
    if b' == b {
      ProbeRejectsNoLonger(l, r, i, j, b, edge);
    }
  }

  /** When the inner loop stops on row `i`, no run starting on that row is
      longer than the best one: every start left unvisited is too close to
      the end of the right window. */
  lemma RowDone(l: string, r: string, i: nat, j: nat, b: Best)
    requires i < |l| && j + b.len >= |r|
    requires ScanInv(l, r, i, j, b)
    ensures ScanInv(l, r, i + 1, 0, b)
  {
    forall a: nat, c: nat | a < |l| && c < |r| && Before(a, c, i + 1, 0)
      ensures RunLength(l, r, a, c) <= b.len
    {
      if a == i && c >= j {
        assert c + RunLength(l, r, a, c) <= |r|;
      }
    }
  }

  /** When the outer loop stops at row `i`, the best run is the longest:
      every row left unvisited is too close to the end of the left window. */
  lemma SearchDone(l: string, r: string, i: nat, b: Best)
    requires i + b.len >= |l|
    requires ScanInv(l, r, i, 0, b)
    ensures IsLongest(l, r, b)
  {
    forall a: nat, c: nat | a < |l| && c < |r|
      ensures RunLength(l, r, a, c) <= b.len
    {
      if a >= i {
        assert a + RunLength(l, r, a, c) <= |l|;
      } else {
        assert Before(a, c, i, 0);
      }
    }
  }

  /** At most one run meets the description of `IsLongest`. */
  lemma LongestUnique(l: string, r: string, b1: Best, b2: Best)
    requires IsLongest(l, r, b1) && IsLongest(l, r, b2)
    ensures b1 == b2
  {
  }
}
