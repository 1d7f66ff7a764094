/** The gestalt score of two strings: twice the number of matched
    characters, as a whole percentage of the two lengths together. */
module Gestalt {
  import opened Search
  import opened Matcher
  import opened MatcherSpec
  import opened MatcherFacts

  /** A string as the C++ program can hold it: its characters come from
      NUL-terminated command-line arguments or literals, so none is NUL. */
  predicate NoNul(s: string) {
    '\0' !in s
  }

  /** The character past a top-level window is the string's terminating NUL. */
  const Terminator := '\0'

  /** The score: 0 when either string is empty, otherwise the matched
      characters times 200 divided by the total length, rounded down. */
  function GestaltValue(s1: string, s2: string): (v: nat)
    requires NoNul(s1) && NoNul(s2)
    ensures v <= 100
    ensures |s1| == 0 || |s2| == 0 ==> v == 0
  {
    if |s1| == 0 || |s2| == 0 then 0
    else Percent(MatchPattern(s1, s2, Terminator), |s1|, |s2|)
  }

  /** `m` matched characters as a whole percentage of the two lengths
      together, counting each matched character once in each string. */
  function Percent(m: nat, n1: nat, n2: nat): (v: nat)
    requires m <= n1 && m <= n2 && 0 < n1 + n2
    ensures v <= 100
  {
    PercentAtMostHundred(m, n1, n2);
    (m * 200) / (n1 + n2)
  }

  /** Twice a count that fits in both lengths is at most their sum, so the
      percentage is at most 100. */
  lemma PercentAtMostHundred(m: nat, n1: nat, n2: nat)
    requires m <= n1 && m <= n2 && 0 < n1 + n2
    ensures (m * 200) / (n1 + n2) <= 100
  {
    DivBelow(m * 200, n1 + n2, 101);
  }

  /** The percentage is exactly 100 when, and only when, the count equals
      both lengths. */
  lemma PercentHundredIff(m: nat, n1: nat, n2: nat)
    requires m <= n1 && m <= n2 && 0 < n1 && 0 < n2
    ensures (m * 200) / (n1 + n2) == 100 <==> m == n1 == n2
  {
    if m == n1 == n2 {
      DivAtLeast(m * 200, n1 + n2, 100);
      DivBelow(m * 200, n1 + n2, 101);
    } else {
      DivBelow(m * 200, n1 + n2, 100);
    }
  }

  /** The score is 100 exactly when all of both strings is matched, and only
      when they are non-empty. */
  lemma GestaltHundredMeansFullMatch(s1: string, s2: string)
    requires NoNul(s1) && NoNul(s2)
    ensures GestaltValue(s1, s2) == 100
      <==> |s1| > 0 && MatchPattern(s1, s2, Terminator) == |s1| == |s2|
  {
    if |s1| > 0 && |s2| > 0 {
      PercentHundredIff(MatchPattern(s1, s2, Terminator), |s1|, |s2|);
    }
  }

  /** The score is 100 exactly when the two strings are equal and non-empty. */
  lemma GestaltHundredIffEqual(s1: string, s2: string)
    requires NoNul(s1) && NoNul(s2)
    ensures GestaltValue(s1, s2) == 100 <==> s1 == s2 && |s1| > 0
  {
    GestaltHundredMeansFullMatch(s1, s2);
    MatchPatternFullIffEqual(s1, s2, Terminator);
  }

  /** Strings with no character in common score 0. */
  lemma GestaltZeroWhenDisjoint(s1: string, s2: string)
    requires NoNul(s1) && NoNul(s2) && ShareNoChar(s1, s2)
    ensures GestaltValue(s1, s2) == 0
  {
    MatchPatternZeroIff(s1, s2, Terminator);
  }

  /** Strings that share a character score above 0 as long as they are at
      most 200 characters long together; longer ones may round down to 0. */
  lemma GestaltPositiveWhenShared(s1: string, s2: string)
    requires NoNul(s1) && NoNul(s2) && !ShareNoChar(s1, s2)
    requires |s1| + |s2| <= 200
    ensures GestaltValue(s1, s2) > 0
  {
    MatchPatternZeroIff(s1, s2, Terminator);
    DivAtLeast(MatchPattern(s1, s2, Terminator) * 200, |s1| + |s2|, 1);
  }

  /** The score never falls below the share of the longest common run. */
  lemma GestaltCoversLongest(s1: string, s2: string)
    requires NoNul(s1) && NoNul(s2) && |s1| > 0 && |s2| > 0
    ensures Longest(s1, s2).len <= |s1| && Longest(s1, s2).len <= |s2|
    ensures GestaltValue(s1, s2) >= Percent(Longest(s1, s2).len, |s1|, |s2|)
  {
    MatchPatternTakesLongest(s1, s2, Terminator);
    MatchPatternCoversLongest(s1, s2, Terminator);
    PercentMonotone(Longest(s1, s2).len, MatchPattern(s1, s2, Terminator), |s1|, |s2|);
  }

  /** More matched characters never lower the percentage. */
  lemma PercentMonotone(m1: nat, m2: nat, n1: nat, n2: nat)
    requires m1 <= m2 <= n1 && m2 <= n2 && 0 < n1 + n2
    ensures Percent(m1, n1, n2) <= Percent(m2, n1, n2)
  {
    var a, n := m1 * 200, n1 + n2;
    DivRoundsDown(a, n);
    DivAtLeast(m2 * 200, n, a / n);
  }

  lemma MulMonotone(x: nat, y: nat, n: nat)
    requires x <= y
    ensures x * n <= y * n
  {
  }

  lemma DivRoundsDown(a: nat, n: nat)
    requires n > 0
    ensures (a / n) * n <= a < (a / n + 1) * n
  {
  }

  lemma DivAtLeast(a: nat, n: nat, k: nat)
    requires n > 0 && k * n <= a
    ensures k <= a / n
  {
    DivRoundsDown(a, n);
    if a / n < k {
      MulMonotone(a / n + 1, k, n);
    }
  }

  lemma DivBelow(a: nat, n: nat, k: nat)
    requires n > 0 && a < k * n
    ensures a / n < k
  {
    DivRoundsDown(a, n);
    if a / n >= k {
      MulMonotone(k, a / n, n);
    }
  }
}
