/** The comparison the command line runs: the two arguments lose their
    spaces, the shorter is padded with spaces to the length of the longer,
    both are lower-cased when case is ignored, and the gestalt score of the
    pair is weighed against half the score with the first string reversed. */
module Compare {
  import opened Gestalt

  /** The string with every space removed and the other characters kept
      in order. */
  function RemoveSpaces(s: string): (r: string)
    ensures ' ' !in r
    ensures |r| <= |s|
  {
    if |s| == 0 then []
    else if s[0] == ' ' then RemoveSpaces(s[1..])
    else [s[0]] + RemoveSpaces(s[1..])
  }

  /** Removing spaces keeps every other character as often as it occurs. */
  lemma {:induction false} RemoveSpacesKeepsOthers(s: string, ch: char)
    requires ch != ' '
    ensures multiset(RemoveSpaces(s))[ch] == multiset(s)[ch]
  {
    if |s| > 0 {
      RemoveSpacesKeepsOthers(s[1..], ch);
      assert s == [s[0]] + s[1..];
    }
  }

  /** Removing spaces works piece by piece, so the order of the remaining
      characters is the order they had. */
  lemma {:induction false} RemoveSpacesAppend(a: string, b: string)
    ensures RemoveSpaces(a + b) == RemoveSpaces(a) + RemoveSpaces(b)
  {
    if |a| > 0 {
      assert (a + b)[1..] == a[1..] + b;
      RemoveSpacesAppend(a[1..], b);
    } else {
      assert a + b == b;
    }
  }

  /** A string without spaces is left as it is. */
  lemma {:induction false} RemoveSpacesFixesSpaceFree(s: string)
    requires ' ' !in s
    ensures RemoveSpaces(s) == s
  {
    if |s| > 0 {
      assert s[0] != ' ' && ' ' !in s[1..];
      RemoveSpacesFixesSpaceFree(s[1..]);
    }
  }

  /** `k` spaces. */
  function Spaces(k: nat): (r: string)
    ensures |r| == k && forall c :: 0 <= c < k ==> r[c] == ' '
  {
    seq(k, _ => ' ')
  }

  /** The string with spaces appended up to length `n`; a string already
      that long is left as it is. */
  function PadTo(s: string, n: nat): (r: string)
    ensures |r| == if |s| < n then n else |s|
    ensures r[..|s|] == s
    ensures forall k :: |s| <= k < |r| ==> r[k] == ' '
  {
    if |s| < n then s + Spaces(n - |s|) else s
  }

  /** Appending spaces and then removing the spaces gives back a string
      that had none. */
  lemma TrailingSpacesRemovable(s: string, k: nat)
    requires ' ' !in s
    ensures RemoveSpaces(s + Spaces(k)) == s
  {
    RemoveSpacesFixesSpaceFree(s);
    RemoveSpacesAppend(s, Spaces(k));
    SpacesRemoved(k);
  }

  lemma {:induction false} SpacesRemoved(k: nat)
    ensures RemoveSpaces(Spaces(k)) == []
  {
    if k > 0 {
      assert Spaces(k)[1..] == Spaces(k - 1);
      SpacesRemoved(k - 1);
    }
  }

  /** The C library's `tolower` in the default "C" locale: the letters A to
      Z become a to z, every other character is left alone. */
  function LowerChar(c: char): (d: char)
    ensures 'A' <= c <= 'Z' ==> 'a' <= d <= 'z' && d as int - c as int == 32
    ensures !('A' <= c <= 'Z') ==> d == c
  {
    if 'A' <= c <= 'Z' then (c as int + 32) as char else c
  }

  /** Every character of the string passed through `LowerChar`. */
  function Lower(s: string): (r: string)
    ensures |r| == |s|
  {
    seq(|s|, k requires 0 <= k < |s| => LowerChar(s[k]))
  }

  /** Lower-casing leaves no capital letter, and doing it twice is the
      same as doing it once. */
  lemma LowerIdempotent(s: string)
    ensures forall k :: 0 <= k < |s| ==> !('A' <= Lower(s)[k] <= 'Z')
    ensures Lower(Lower(s)) == Lower(s)
  {
  }

  /** Lower-casing neither creates nor removes spaces or NULs. */
  lemma LowerKeepsSpacesAndNul(s: string)
    ensures ' ' in Lower(s) <==> ' ' in s
    ensures '\0' in Lower(s) <==> '\0' in s
  {
    forall ch | ch == ' ' || ch == '\0'
      ensures ch in Lower(s) <==> ch in s
    {
      if ch in s {
        var k :| 0 <= k < |s| && s[k] == ch;
        assert Lower(s)[k] == ch;
      }
      if ch in Lower(s) {
        var k :| 0 <= k < |s| && Lower(s)[k] == ch;
        assert s[k] == ch;
      }
    }
  }

  /** Lower-casing works piece by piece. */
  lemma LowerAppend(a: string, b: string)
    ensures Lower(a + b) == Lower(a) + Lower(b)
  {
  }

  /** The string lower-cased when case is to be ignored, as it is otherwise. */
  function FoldCase(s: string, ignoreCase: bool): (r: string)
    ensures |r| == |s|
  {
    if ignoreCase then Lower(s) else s
  }

  /** The string read backwards. */
  function Reverse(s: string): (r: string)
    ensures |r| == |s|
    ensures forall k :: 0 <= k < |s| ==> r[k] == s[|s| - 1 - k]
  {
    if |s| == 0 then [] else Reverse(s[1..]) + [s[0]]
  }

  /** Reversing twice gives back the string. */
  lemma ReverseTwice(s: string)
    ensures Reverse(Reverse(s)) == s
  {
  }

  /** Reversing keeps every character as often as it occurs. */
  lemma {:induction false} ReverseKeepsCharacters(s: string)
    ensures multiset(Reverse(s)) == multiset(s)
  {
    if |s| > 0 {
      ReverseKeepsCharacters(s[1..]);
      assert s == [s[0]] + s[1..];
    }
  }

  /** One argument, already without spaces, padded to length `n` and
      lower-cased when case is ignored. */
  function PadAndFold(t: string, n: nat, ignoreCase: bool): (p: string)
    ensures |p| == if |t| < n then n else |t|
  {
    FoldCase(PadTo(t, n), ignoreCase)
  }

  /** Both arguments as the score sees them: spaces removed, padded to the
      same length, lower-cased when case is ignored. */
  function Prepare(s1: string, s2: string, ignoreCase: bool): (p: (string, string))
    ensures |p.0| == |p.1|
    ensures |p.0| == if |RemoveSpaces(s1)| < |RemoveSpaces(s2)| then |RemoveSpaces(s2)| else |RemoveSpaces(s1)|
  {
    var t1 := RemoveSpaces(s1);
    var t2 := RemoveSpaces(s2);
    (PadAndFold(t1, |t2|, ignoreCase), PadAndFold(t2, |t1|, ignoreCase))
  }

  /** Padding and case folding add no NUL. */
  lemma PadAndFoldKeepsNoNul(t: string, n: nat, ignoreCase: bool)
    requires NoNul(t)
    ensures NoNul(PadAndFold(t, n, ignoreCase))
  {
    LowerKeepsSpacesAndNul(PadTo(t, n));
  }

  /** Preparing NUL-free arguments leaves them NUL-free. */
  lemma PrepareKeepsNoNul(s1: string, s2: string, ignoreCase: bool)
    requires NoNul(s1) && NoNul(s2)
    ensures NoNul(Prepare(s1, s2, ignoreCase).0) && NoNul(Prepare(s1, s2, ignoreCase).1)
  {
    RemoveSpacesKeepsOthers(s1, '\0');
    RemoveSpacesKeepsOthers(s2, '\0');
    var t1, t2 := RemoveSpaces(s1), RemoveSpaces(s2);
    PadAndFoldKeepsNoNul(t1, |t2|, ignoreCase);
    PadAndFoldKeepsNoNul(t2, |t1|, ignoreCase);
  }

  /** The printed result: the score of the prepared pair, or half the score
      with the first prepared string reversed, whichever is larger. */
  function WeightedComparison(s1: string, s2: string, ignoreCase: bool): (w: nat)
    requires NoNul(s1) && NoNul(s2)
    ensures w <= 100
  {
    PrepareKeepsNoNul(s1, s2, ignoreCase);
    var (p1, p2) := Prepare(s1, s2, ignoreCase);
    var test1 := GestaltValue(p1, p2);
    var test2 := GestaltValue(Reverse(p1), p2) / 2;
    if test1 >= test2 then test1 else test2
  }

  /** The reversed comparison counts for at most half, so it decides the
      result only when the direct score is below 50. */
  lemma WeightedFavoursDirect(s1: string, s2: string, ignoreCase: bool)
    requires NoNul(s1) && NoNul(s2)
    ensures NoNul(Prepare(s1, s2, ignoreCase).0) && NoNul(Prepare(s1, s2, ignoreCase).1)
    ensures var (p1, p2) := Prepare(s1, s2, ignoreCase);
      && WeightedComparison(s1, s2, ignoreCase) >= GestaltValue(p1, p2)
      && WeightedComparison(s1, s2, ignoreCase) <= if GestaltValue(p1, p2) < 50 then 50 else GestaltValue(p1, p2)
  {
    PrepareKeepsNoNul(s1, s2, ignoreCase);
  }

  /** Two space-free strings that are equal once each is padded with
      spaces are equal. */
  lemma PaddedEqual(x: string, y: string, k1: nat, k2: nat)
    requires ' ' !in x && ' ' !in y
    requires x + Spaces(k1) == y + Spaces(k2)
    ensures x == y
  {
    TrailingSpacesRemovable(x, k1);
    TrailingSpacesRemovable(y, k2);
  }

  /** A string padded to `n` is the string followed by spaces. */
  lemma PadToSpaces(s: string, n: nat)
    ensures PadTo(s, n) == s + Spaces(|PadTo(s, n)| - |s|)
  {
    if |s| >= n {
      assert s + Spaces(0) == s;
    }
  }

  /** Case folding a string followed by spaces folds the string and keeps
      the spaces. */
  lemma FoldCasePadded(s: string, k: nat, ignoreCase: bool)
    ensures FoldCase(s + Spaces(k), ignoreCase) == FoldCase(s, ignoreCase) + Spaces(k)
    ensures ' ' !in s ==> ' ' !in FoldCase(s, ignoreCase)
  {
    LowerAppend(s, Spaces(k));
    LowerKeepsSpacesAndNul(s);
  }

  /** A padded, case-folded argument is the folded argument followed by
      the spaces that pad it, and the folded argument has no space. */
  lemma PadAndFoldShape(t: string, n: nat, ignoreCase: bool)
    requires ' ' !in t
    ensures var p := PadAndFold(t, n, ignoreCase);
      p == FoldCase(t, ignoreCase) + Spaces(|p| - |t|) && ' ' !in FoldCase(t, ignoreCase)
  {
    PadToSpaces(t, n);
    FoldCasePadded(t, |PadTo(t, n)| - |t|, ignoreCase);
  }

  /** The comparison reports 100 exactly when the two arguments are the same
      once spaces are removed (and case is folded, when it is ignored), and
      are not made of spaces alone. */
  lemma WeightedHundredIff(s1: string, s2: string, ignoreCase: bool)
    requires NoNul(s1) && NoNul(s2)
    ensures WeightedComparison(s1, s2, ignoreCase) == 100
      <==> FoldCase(RemoveSpaces(s1), ignoreCase) == FoldCase(RemoveSpaces(s2), ignoreCase)
           && |RemoveSpaces(s1)| > 0
  {
    var t1, t2 := RemoveSpaces(s1), RemoveSpaces(s2);
    var f1, f2 := FoldCase(t1, ignoreCase), FoldCase(t2, ignoreCase);
    var (p1, p2) := Prepare(s1, s2, ignoreCase);
    WeightedFavoursDirect(s1, s2, ignoreCase);
    PadAndFoldShape(t1, |t2|, ignoreCase);
    PadAndFoldShape(t2, |t1|, ignoreCase);
    GestaltHundredIffEqual(p1, p2);
    if p1 == p2 {
      PaddedEqual(f1, f2, |p1| - |t1|, |p2| - |t2|);
    }
    if f1 == f2 {
      assert |t1| == |t2|;
      assert p1 == f1 + Spaces(0) == f1;
    }
  }
}
