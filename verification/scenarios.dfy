/** The program's built-in example and a few concrete pairs, worked out on
    the model. */
module Scenarios {
  import opened Runs
  import opened Search
  import opened Matcher
  import opened MatcherSpec
  import opened MatcherFacts
  import opened Gestalt
  import opened Compare

  /** In the default pair the longest common run is "aabb" at the start
      of both strings: the character after it, 'c', does not occur in the
      second string, and neither does any later character of the first. */
  lemma DefaultLongest()
    ensures Longest("aabbccdd", "aabbCCDD") == Best(4, 0, 0)
  {
    var l, r := "aabbccdd", "aabbCCDD";
    var w := Best(4, 0, 0);
    assert l[4] !in r;
    RunLengthMaximal(l, r, 0, 0, 4);
    RunStopsAtForeignChar(l, r, 0, 0, 4);
    forall a: nat, c: nat | a < |l| && c < |r|
      ensures RunLength(l, r, a, c) <= 4
    {
      if a <= 4 {
        RunStopsAtForeignChar(l, r, a, c, 4);
      } else {
        assert l[a] !in r;
        RunStopsAtForeignChar(l, r, a, c, a);
      }
    }
    assert IsLongest(l, r, w);
    LongestSpec(l, r);
    LongestUnique(l, r, Longest(l, r), w);
  }

  /** What follows the run in the default pair, "ccdd" against "CCDD", has
      no character in common and matches nothing. */
  lemma DefaultRemainder()
    ensures MatchPattern("ccdd", "CCDD", Terminator) == 0
  {
    assert ShareNoChar("ccdd", "CCDD");
    MatchPatternZeroIff("ccdd", "CCDD", Terminator);
  }

  /** The default pair compared case-sensitively: 4 matched characters out
      of 16 give 50. */
  lemma DefaultComparison()
    ensures GestaltValue("aabbccdd", "aabbCCDD") == 50
  {
    var l, r := "aabbccdd", "aabbCCDD";
    DefaultLongest();
    MatchPatternTakesLongest(l, r, Terminator);
    assert l[4..] == "ccdd" && r[4..] == "CCDD";
    DefaultRemainder();
    assert MatchPattern(l, r, Terminator) == 4;
  }

  /** A string always scores 100 against itself. */
  lemma IdenticalScoresHundred(s: string)
    requires NoNul(s) && |s| > 0
    ensures GestaltValue(s, s) == 100
  {
    GestaltHundredIffEqual(s, s);
  }

  /** Ignoring case and spaces, "Ab c" and "aBC" are the same word. */
  lemma CaseAndSpacesFold()
    ensures FoldCase(RemoveSpaces("Ab c"), true) == FoldCase(RemoveSpaces("aBC"), true)
    ensures |RemoveSpaces("Ab c")| > 0
  {
    assert RemoveSpaces("Ab c") == "Abc";
    RemoveSpacesFixesSpaceFree("aBC");
    forall k | 0 <= k < 3
      ensures Lower("Abc")[k] == "abc"[k] && Lower("aBC")[k] == "abc"[k]
    {
    }
  }

  /** With case ignored, "Ab c" against "aBC" scores 100. */
  lemma IgnoringCase()
    ensures WeightedComparison("Ab c", "aBC", true) == 100
  {
    CaseAndSpacesFold();
    WeightedHundredIff("Ab c", "aBC", true);
  }

  /** Spaces and padding do not count: "a b" against "ab" scores 100. */
  lemma SpacesIgnored()
    ensures WeightedComparison("a b", "ab", false) == 100
  {
    assert RemoveSpaces("a b") == "ab";
    RemoveSpacesFixesSpaceFree("ab");
    WeightedHundredIff("a b", "ab", false);
  }

  /** The longest run of "ab" in "bacb" is one character long ("ab" does
      not occur in "bacb"), and the first one is the "a" at (0, 1). */
  lemma AbBacbLongest()
    ensures Longest("ab", "bacb") == Best(1, 0, 1)
  {
    var l, r := "ab", "bacb";
    forall a: nat, c: nat | a < |l| && c < |r|
      ensures RunLength(l, r, a, c) <= 1
    {
      assert a == 0 || a == 1;
      assert c == 0 || c == 1 || c == 2 || c == 3;
    }
    assert RunLength(l, r, 0, 0) == 0;
    assert RunLength(l, r, 0, 1) == 1;
    assert IsLongest(l, r, Best(1, 0, 1));
    LongestSpec(l, r);
    LongestUnique(l, r, Longest(l, r), Best(1, 0, 1));
  }

  /** The longest run of "bacb" in "ab" is one character long, and the
      first one is the "b" at (0, 1). */
  lemma BacbAbLongest()
    ensures Longest("bacb", "ab") == Best(1, 0, 1)
  {
    var l, r := "bacb", "ab";
    forall a: nat, c: nat | a < |l| && c < |r|
      ensures RunLength(l, r, a, c) <= 1
    {
      assert a == 0 || a == 1 || a == 2 || a == 3;
      assert c == 0 || c == 1;
    }
    assert RunLength(l, r, 0, 0) == 0;
    assert RunLength(l, r, 0, 1) == 1;
    assert IsLongest(l, r, Best(1, 0, 1));
    LongestSpec(l, r);
    LongestUnique(l, r, Longest(l, r), Best(1, 0, 1));
  }

  /** From "ab" the matcher takes the "a" of "bacb", then matches "b"
      against "cb" after it: 2 characters. */
  lemma MatchAbBacb()
    ensures MatchPattern("ab", "bacb", Terminator) == 2
  {
    AbBacbLongest();
    MatchPatternTakesLongest("ab", "bacb", Terminator);
    assert "ab"[1..] == "b" && "bacb"[2..] == "cb";
    MatchBCb();
  }

  lemma MatchBCb()
    ensures MatchPattern("b", "cb", Terminator) == 1
  {
    MatchPatternTakesLongest("b", "cb", Terminator);
    assert Longest("b", "cb").len == 1;
  }

  /** From "bacb" the matcher takes the first "b", and nothing is left after
      it in "ab": 1 character. */
  lemma MatchBacbAb()
    ensures MatchPattern("bacb", "ab", Terminator) == 1
  {
    BacbAbLongest();
    MatchPatternTakesLongest("bacb", "ab", Terminator);
  }

  /** The score depends on the order of its arguments. */
  lemma NotSymmetric()
    ensures GestaltValue("ab", "bacb") == 66
    ensures GestaltValue("bacb", "ab") == 33
  {
    MatchAbBacb();
    MatchBacbAb();
  }
}
