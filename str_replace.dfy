/**
  Python's `str.replace(old, new)` for a non-empty `old`: the text is scanned
  left to right, every occurrence of the pattern that starts at the scan
  position is replaced and skipped over, so matches never overlap.
 */
module StrReplace {

  /** `pat` occurs as a contiguous block somewhere in `s`. */
  predicate Occurs(pat: seq<char>, s: seq<char>)
    requires |pat| > 0
    decreases |s|
  {
    |pat| <= |s| && (s[..|pat|] == pat || Occurs(pat, s[1..]))
  }

  /** Number of occurrences that a left-to-right, non-overlapping scan replaces. */
  function MatchCount(s: seq<char>, pat: seq<char>): nat
    requires |pat| > 0
    decreases |s|
  {
    if |s| < |pat| then 0
    else if s[..|pat|] == pat then 1 + MatchCount(s[|pat|..], pat)
    else MatchCount(s[1..], pat)
  }

  /** `s.replace(pat, rep)`: every character of the result comes from the text or from the replacement. */
  function ReplaceAll(s: seq<char>, pat: seq<char>, rep: seq<char>): (r: seq<char>)
    requires |pat| > 0
    ensures forall c :: c in r ==> c in s || c in rep
    decreases |s|
  {
    if |s| < |pat| then s
    else if s[..|pat|] == pat then rep + ReplaceAll(s[|pat|..], pat, rep)
    else [s[0]] + ReplaceAll(s[1..], pat, rep)
  }

  /** A one-character pattern occurs exactly when that character is in the text. */
  lemma {:induction false} OccursSingle(c: char, s: seq<char>)
    ensures Occurs([c], s) <==> c in s
    decreases |s|
  {
    if |s| > 0 {
      OccursSingle(c, s[1..]);
      assert s == [s[0]] + s[1..];
    }
  }

  /** A text that starts with the pattern has that occurrence replaced and the scan resumes after it. */
  lemma ReplaceAllPrefix(pat: seq<char>, t: seq<char>, rep: seq<char>)
    requires |pat| > 0
    ensures ReplaceAll(pat + t, pat, rep) == rep + ReplaceAll(t, pat, rep)
  {
    var s := pat + t;
    assert s[..|pat|] == pat && s[|pat|..] == t;
  }

  /** A text that does not start with the pattern keeps its first character and the scan moves on. */
  lemma ReplaceAllSkip(c: char, t: seq<char>, pat: seq<char>, rep: seq<char>)
    requires |pat| > 0
    requires |pat| <= 1 + |t| ==> ([c] + t)[..|pat|] != pat
    ensures ReplaceAll([c] + t, pat, rep) == [c] + ReplaceAll(t, pat, rep)
  {
    var s := [c] + t;
    assert s[0] == c && s[1..] == t;
  }

  /** The scan finds a match exactly when the pattern occurs. */
  lemma {:induction false} MatchCountZero(s: seq<char>, pat: seq<char>)
    requires |pat| > 0
    ensures MatchCount(s, pat) == 0 <==> !Occurs(pat, s)
    decreases |s|
  {
    if |s| >= |pat| && s[..|pat|] != pat {
      MatchCountZero(s[1..], pat);
    }
  }

  /** Each replaced occurrence changes the length by `|rep| - |pat|`. */
  lemma {:induction false} ReplaceAllLength(s: seq<char>, pat: seq<char>, rep: seq<char>)
    requires |pat| > 0
    ensures |ReplaceAll(s, pat, rep)| == |s| + MatchCount(s, pat) * (|rep| - |pat|)
    decreases |s|
  {
    if |s| < |pat| {
    } else if s[..|pat|] == pat {
      var rest := s[|pat|..];
      ReplaceAllLength(rest, pat, rep);
      var k, d := MatchCount(rest, pat), |rep| - |pat|;
      assert ReplaceAll(s, pat, rep) == rep + ReplaceAll(rest, pat, rep);
      assert MatchCount(s, pat) == 1 + k;
      assert |s| == |pat| + |rest|;
      MulSucc(k, d);
    } else {
      ReplaceAllLength(s[1..], pat, rep);
    }
  }

  /** Text in which the pattern does not occur comes back unchanged. */
  lemma {:induction false} ReplaceAllNoMatch(s: seq<char>, pat: seq<char>, rep: seq<char>)
    requires |pat| > 0
    requires !Occurs(pat, s)
    ensures ReplaceAll(s, pat, rep) == s
    decreases |s|
  {
    if |s| >= |pat| {
      ReplaceAllNoMatch(s[1..], pat, rep);
      assert s == [s[0]] + s[1..];
    }
  }

  /**
    When the replacement has a different length from the pattern, the text
    comes back unchanged if and only if the pattern does not occur in it.
   */
  lemma {:induction false} ReplaceAllUnchangedIff(s: seq<char>, pat: seq<char>, rep: seq<char>)
    requires |pat| > 0 && |rep| != |pat|
    ensures ReplaceAll(s, pat, rep) == s <==> !Occurs(pat, s)
  {
    MatchCountZero(s, pat);
    ReplaceAllLength(s, pat, rep);
    if !Occurs(pat, s) {
      ReplaceAllNoMatch(s, pat, rep);
    } else {
      ScaledNonZero(MatchCount(s, pat), |rep| - |pat|);
    }
  }

  /** Distributing one more step of a scaled change. */
  lemma MulSucc(k: int, d: int)
    ensures (1 + k) * d == d + k * d
  {
  }

  /** A positive number of non-zero changes is a non-zero change. */
  lemma {:induction false} ScaledNonZero(k: nat, d: int)
    requires k >= 1 && d != 0
    ensures d > 0 ==> k * d >= d
    ensures d < 0 ==> k * d <= d
  {
    if k > 1 {
      ScaledNonZero(k - 1, d);
      assert k * d == (k - 1) * d + d;
    }
  }
}
