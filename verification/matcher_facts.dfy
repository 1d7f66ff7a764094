/** Properties of the recursive matcher: that its guards lose nothing, that
    it finds nothing exactly when the windows share no character, and that
    it matches two windows in full exactly when they are equal. */
module MatcherFacts {
  import opened Runs
  import opened Search
  import opened Matcher
  import opened MatcherSpec

  /** The two windows have no character in common. */
  predicate ShareNoChar(l: string, r: string) {
    forall ch :: ch in l ==> ch !in r
  }

  /** The two guards on the recursive calls never lose a match: a window
      they leave out is empty, and an empty window matches nothing. The
      matcher around a run is therefore the unguarded recursion. */
  lemma MatchAroundUnguarded(l: string, r: string, edge: char, b: Best)
    requires Recorded(l, r, b) && b.len > 0
    ensures MatchAround(l, r, edge, b)
      == b.len + MatchPattern(l[..b.i], r[..b.j], l[b.i])
         + MatchPattern(l[b.i + b.len..], r[b.j + b.len..], edge)
  {
    assert LeftMatch(l, r, b) == MatchPattern(l[..b.i], r[..b.j], l[b.i]);
    assert RightMatch(l, r, edge, b) == MatchPattern(l[b.i + b.len..], r[b.j + b.len..], edge);
  }

  /** The matcher takes at least the longest common run of the windows. */
  lemma MatchPatternCoversLongest(l: string, r: string, edge: char)
    ensures MatchPattern(l, r, edge) >= Longest(l, r).len
  {
    MatchPatternTakesLongest(l, r, edge);
  }

  /** If the matcher finds nothing, the windows share no character. */
  lemma NothingMatchedMeansDisjoint(l: string, r: string, edge: char)
    requires MatchPattern(l, r, edge) == 0
    ensures ShareNoChar(l, r)
  {
    MatchPatternTakesLongest(l, r, edge);
    forall ch | ch in l
      ensures ch !in r
    {
      if ch in r {
        var a :| 0 <= a < |l| && l[a] == ch;
        var c :| 0 <= c < |r| && r[c] == ch;
        assert RunLength(l, r, a, c) >= 1;
      }
    }
  }

  /** If the matcher finds anything, the windows share a character: the
      first one of the run it takes. */
  lemma MatchedMeansShared(l: string, r: string, edge: char)
    requires MatchPattern(l, r, edge) > 0
    ensures !ShareNoChar(l, r)
  {
    var b := Longest(l, r);
    MatchPatternTakesLongest(l, r, edge);
    assert l[b.i] == r[b.j];
    assert l[b.i] in l && l[b.i] in r;
  }

  /** The matcher finds nothing exactly when the windows share no character. */
  lemma MatchPatternZeroIff(l: string, r: string, edge: char)
    ensures MatchPattern(l, r, edge) == 0 <==> ShareNoChar(l, r)
  {
    if MatchPattern(l, r, edge) == 0 {
      NothingMatchedMeansDisjoint(l, r, edge);
    } else {
      MatchedMeansShared(l, r, edge);
    }
  }

  /** A window matched against itself is matched in full by one run at
      (0, 0), with nothing left on either side. */
  lemma MatchPatternSelf(s: string, edge: char)
    ensures MatchPattern(s, s, edge) == |s|
  {
    MatchPatternTakesLongest(s, s, edge);
    if |s| > 0 {
      var whole := Best(|s|, 0, 0);
      RunLengthMaximal(s, s, 0, 0, |s|);
      assert IsLongest(s, s, whole);
      LongestUnique(s, s, Longest(s, s), whole);
      assert MatchAround(s, s, edge, whole) == |s|;
    }
  }

  /** Two windows of equal length that agree before, on and after a run
      at the same offset are equal. */
  lemma Reassemble(l: string, r: string, a: nat, n: nat)
    requires |l| == |r| && a + n <= |l|
    requires l[..a] == r[..a] && l[a..a + n] == r[a..a + n] && l[a + n..] == r[a + n..]
    ensures l == r
  {
    SplitAround(l, a, a + n);
    SplitAround(r, a, a + n);
  }

  /** When both windows are matched in full, so are the windows before the
      chosen run and the windows after it, and the run starts at the same
      offset in both. */
  lemma FullMatchSplits(l: string, r: string, edge: char, b: Best)
    requires Recorded(l, r, b) && |l| > 0
    requires MatchAround(l, r, edge, b) == |l| == |r|
    ensures b.len > 0 && b.i == b.j
    ensures MatchPattern(l[..b.i], r[..b.j], l[b.i]) == b.i
    ensures MatchPattern(l[b.i + b.len..], r[b.j + b.len..], edge) == |l| - (b.i + b.len)
  {
    MatchAroundUnguarded(l, r, edge, b);
  }

  /** If the matcher covers both windows in full, they are equal. */
  lemma {:induction false} FullMatchMeansEqual(l: string, r: string, edge: char)
    requires MatchPattern(l, r, edge) == |l| == |r|
    ensures l == r
    decreases |l| + |r|
  {
    if |l| > 0 {
      var b := Longest(l, r);
      MatchPatternTakesLongest(l, r, edge);
      FullMatchSplits(l, r, edge, b);
      FullMatchMeansEqual(l[..b.i], r[..b.j], l[b.i]);
      FullMatchMeansEqual(l[b.i + b.len..], r[b.j + b.len..], edge);
      LongestIsCommon(l, r);
      Reassemble(l, r, b.i, b.len);
    }
  }

  /** Both windows are matched in full exactly when they are equal. */
  lemma MatchPatternFullIffEqual(l: string, r: string, edge: char)
    ensures (MatchPattern(l, r, edge) == |l| && MatchPattern(l, r, edge) == |r|) <==> l == r
  {
    if l == r {
      MatchPatternSelf(l, edge);
    } else if MatchPattern(l, r, edge) == |l| == |r| {
      FullMatchMeansEqual(l, r, edge);
    }
  }
}
