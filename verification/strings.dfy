/** The string operations the plugin relies on from the Java platform:
    lower-casing, substring search and replacement of every occurrence of a
    literal target. */
module Strings {

  /** Lower-cases an ASCII upper-case letter and leaves every other character alone. */
  function LowerChar(c: char): char
  {
    if 'A' <= c <= 'Z' then (c as int + ('a' as int - 'A' as int)) as char else c
  }

  /** Character-by-character lower-casing. */
  function Lower(s: string): (r: string)
    ensures |r| == |s|
    ensures forall i :: 0 <= i < |s| ==> r[i] == LowerChar(s[i])
    decreases |s|
  {
    if s == [] then [] else [LowerChar(s[0])] + Lower(s[1..])
  }

  /** `t` occurs in `s` starting at index `i`. */
  ghost predicate OccursAt(s: string, t: string, i: int)
  {
    0 <= i && i + |t| <= |s| && s[i..i + |t|] == t
  }

  predicate StartsWith(s: string, t: string)
  {
    |t| <= |s| && s[..|t|] == t
  }

  /** Occurrences in `s` past its first character are exactly the occurrences
      in `s[1..]`, shifted by one. */
  lemma OccursShift(s: string, t: string)
    requires s != []
    ensures forall i :: 1 <= i ==> (OccursAt(s, t, i) <==> OccursAt(s[1..], t, i - 1))
    ensures forall j :: 0 <= j ==> (OccursAt(s[1..], t, j) <==> OccursAt(s, t, j + 1))
  {
    forall i | 1 <= i
      ensures OccursAt(s, t, i) <==> OccursAt(s[1..], t, i - 1)
    {
      if i + |t| <= |s| {
        var a, b := s[i..i + |t|], s[1..][i - 1..i - 1 + |t|];
        assert forall k :: 0 <= k < |t| ==> a[k] == b[k];
        assert a == b;
      }
    }
  }

  /** Substring search by scanning left to right, as `String.contains` does. */
  function Contains(s: string, t: string): (b: bool)
    ensures b <==> exists i :: OccursAt(s, t, i)
    decreases |s|
  {
    assert StartsWith(s, t) <==> OccursAt(s, t, 0) by {
      if |t| <= |s| { assert s[0..|t|] == s[..|t|]; }
    }
    if StartsWith(s, t) then true
    else if s == [] then false
    else OccursShift(s, t); Contains(s[1..], t)
  }

  /** `String.replace(pat, rep)` for a non-empty target: scanning left to
      right, each occurrence of `pat` not overlapping an earlier replaced one
      becomes `rep`; the replacement text is never rescanned. */
  function ReplaceAll(s: string, pat: string, rep: string): string
    requires |pat| > 0
    decreases |s|
  {
    if s == [] then []
    else if StartsWith(s, pat) then rep + ReplaceAll(s[|pat|..], pat, rep)
    else [s[0]] + ReplaceAll(s[1..], pat, rep)
  }

  /** The number of occurrences `ReplaceAll` replaces. */
  function Replacements(s: string, pat: string): nat
    requires |pat| > 0
    decreases |s|
  {
    if s == [] then 0
    else if StartsWith(s, pat) then 1 + Replacements(s[|pat|..], pat)
    else Replacements(s[1..], pat)
  }

  /** The same replacement computed by an index loop that appends to the
      result as it goes. */
  method Replace(s: string, pat: string, rep: string) returns (r: string)
    requires |pat| > 0
    ensures r == ReplaceAll(s, pat, rep)
  {
    r := [];
    var i := 0;
    while i < |s|
      invariant 0 <= i <= |s|
      invariant r + ReplaceAll(s[i..], pat, rep) == ReplaceAll(s, pat, rep)
      decreases |s| - i
    {
      var rest := s[i..];
      if StartsWith(rest, pat) {
        assert rest[|pat|..] == s[i + |pat|..];
        assert ReplaceAll(rest, pat, rep) == rep + ReplaceAll(s[i + |pat|..], pat, rep);
        assert (r + rep) + ReplaceAll(s[i + |pat|..], pat, rep) == r + ReplaceAll(rest, pat, rep);
        r := r + rep;
        i := i + |pat|;
      } else {
        assert rest[1..] == s[i + 1..] && rest[0] == s[i];
        assert ReplaceAll(rest, pat, rep) == [s[i]] + ReplaceAll(s[i + 1..], pat, rep);
        assert (r + [s[i]]) + ReplaceAll(s[i + 1..], pat, rep) == r + ReplaceAll(rest, pat, rep);
        r := r + [s[i]];
        i := i + 1;
      }
    }
  }

  /** Without an occurrence of the target, replacement changes nothing. */
  lemma {:induction false} ReplaceAbsent(s: string, pat: string, rep: string)
    requires |pat| > 0
    ensures !Contains(s, pat) ==> ReplaceAll(s, pat, rep) == s
    decreases |s|
  {
    if s != [] && !Contains(s, pat) {
      ReplaceAbsent(s[1..], pat, rep);
      assert [s[0]] + s[1..] == s;
    }
  }

  /** Replacing the target by itself changes nothing. */
  lemma {:induction false} ReplaceSelf(s: string, pat: string)
    requires |pat| > 0
    ensures ReplaceAll(s, pat, pat) == s
    decreases |s|
  {
    if s == [] {
    } else if StartsWith(s, pat) {
      ReplaceSelf(s[|pat|..], pat);
      assert s[..|pat|] + s[|pat|..] == s;
    } else {
      ReplaceSelf(s[1..], pat);
      assert [s[0]] + s[1..] == s;
    }
  }

  /** A string that is exactly the target becomes exactly the replacement. */
  lemma ReplaceWhole(pat: string, rep: string)
    requires |pat| > 0
    ensures ReplaceAll(pat, pat, rep) == rep
  {
    assert pat[..|pat|] == pat;
    assert pat[|pat|..] == [];
  }

  /** Each replacement changes the length by `|rep| - |pat|`. */
  lemma {:induction false} ReplaceLength(s: string, pat: string, rep: string)
    requires |pat| > 0
    ensures |ReplaceAll(s, pat, rep)| == |s| + Replacements(s, pat) * (|rep| - |pat|)
    decreases |s|
  {
    if s == [] {
    } else if StartsWith(s, pat) {
      ReplaceLength(s[|pat|..], pat, rep);
      MulStep(Replacements(s[|pat|..], pat), |rep| - |pat|);
    } else {
      ReplaceLength(s[1..], pat, rep);
    }
  }

  /** The scan replaces something exactly when the target occurs somewhere. */
  lemma {:induction false} ReplacementsZeroIff(s: string, pat: string)
    requires |pat| > 0
    ensures Replacements(s, pat) == 0 <==> !Contains(s, pat)
    decreases |s|
  {
    if s != [] && !StartsWith(s, pat) {
      ReplacementsZeroIff(s[1..], pat);
    }
  }

  /** When the replacement differs in length from the target, the result
      equals the input exactly when the target does not occur. */
  lemma ReplaceUnchangedIff(s: string, pat: string, rep: string)
    requires |pat| > 0
    ensures |rep| != |pat| ==> (ReplaceAll(s, pat, rep) == s <==> !Contains(s, pat))
  {
    ReplaceAbsent(s, pat, rep);
    ReplacementsZeroIff(s, pat);
    ReplaceLength(s, pat, rep);
    if Replacements(s, pat) != 0 && |rep| != |pat| {
      MulNonZero(Replacements(s, pat), |rep| - |pat|);
    }
  }

  lemma MulStep(k: int, d: int)
    ensures (1 + k) * d == d + k * d
  {
  }

  lemma MulNonZero(k: int, d: int)
    requires k != 0 && d != 0
    ensures k * d != 0
  {
  }
}
