/** The few `java.lang.String` operations the hook logic relies on, each with a
    contract that characterises it independently of how it is computed. */
module JavaStrings {

  // ---------------------------------------------------------------------------
  // Lower-casing
  // ---------------------------------------------------------------------------

  /** Lower-cases one character; only the ASCII letters are mapped. */
  function LowerChar(c: char): (r: char)
    ensures 'A' <= c <= 'Z' ==> 'a' <= r <= 'z' && r as int - c as int == 'a' as int - 'A' as int
    ensures !('A' <= c <= 'Z') ==> r == c
  {
    if 'A' <= c <= 'Z' then (c as int - 'A' as int + 'a' as int) as char else c
  }

  /** `String.toLowerCase`, restricted to ASCII letters. */
  function ToLower(s: string): (r: string)
    ensures |r| == |s|
    ensures forall i :: 0 <= i < |s| ==> r[i] == LowerChar(s[i])
    ensures forall i :: 0 <= i < |r| ==> !('A' <= r[i] <= 'Z')
  {
    seq(|s|, i requires 0 <= i < |s| => LowerChar(s[i]))
  }

  // ---------------------------------------------------------------------------
  // Searching
  // ---------------------------------------------------------------------------

  /** `p` occurs in `s` starting at index `i`. */
  predicate OccursAt(s: string, p: string, i: int)
  {
    0 <= i && i + |p| <= |s| && s[i..i + |p|] == p
  }

  /** `String.indexOf(p, from)`: the first occurrence of `p` at or after `from`, or -1. */
  function IndexOfFrom(s: string, p: string, from: nat): (r: int)
    requires from <= |s|
    ensures r == -1 || (from <= r && OccursAt(s, p, r))
    ensures r == -1 ==> forall i :: from <= i ==> !OccursAt(s, p, i)
    ensures r >= 0 ==> forall i :: from <= i < r ==> !OccursAt(s, p, i)
    decreases |s| - from
  {
    if from + |p| > |s| then -1
    else if s[from..from + |p|] == p then from
    else IndexOfFrom(s, p, from + 1)
  }

  /** `String.indexOf(p)`. */
  function IndexOf(s: string, p: string): (r: int)
    ensures r == -1 || OccursAt(s, p, r)
    ensures r >= 0 <==> exists i :: OccursAt(s, p, i)
    ensures r >= 0 ==> forall i :: 0 <= i < r ==> !OccursAt(s, p, i)
  {
    IndexOfFrom(s, p, 0)
  }

  /** `String.contains(p)`, which Java defines as `indexOf(p) >= 0`. */
  function Contains(s: string, p: string): (r: bool)
    ensures r <==> exists i :: OccursAt(s, p, i)
  {
    IndexOf(s, p) >= 0
  }

  /** `String.lastIndexOf(c)`: the last index holding `c`, or -1. */
  function LastIndexOf(s: string, c: char): (r: int)
    ensures -1 <= r < |s|
    ensures r >= 0 ==> s[r] == c
    ensures forall j :: r < j < |s| ==> s[j] != c
  {
    if |s| == 0 then -1
    else if s[|s| - 1] == c then |s| - 1
    else LastIndexOf(s[..|s| - 1], c)
  }

  // ---------------------------------------------------------------------------
  // Trimming
  // ---------------------------------------------------------------------------

  /** `String.trim` removes every code unit at or below the space character. */
  predicate IsTrimmable(c: char)
  {
    c <= ' '
  }

  /** Every character of `s` in `[lo, hi)` can be trimmed. */
  ghost predicate TrimmableBetween(s: string, lo: int, hi: int)
  {
    forall i :: lo <= i < hi && 0 <= i < |s| ==> IsTrimmable(s[i])
  }

  /** Neither end of `s` can be trimmed. */
  predicate IsTrimmed(s: string)
  {
    |s| == 0 || (!IsTrimmable(s[0]) && !IsTrimmable(s[|s| - 1]))
  }

  /** `r` is `s` with some trimmable prefix and some trimmable suffix removed. */
  ghost predicate StripsTo(s: string, r: string)
  {
    exists i, j :: 0 <= i <= j <= |s| && r == s[i..j] && TrimmableBetween(s, 0, i) && TrimmableBetween(s, j, |s|)
  }

  /** Drops the leading trimmable characters. */
  function TrimStart(s: string): (r: string)
    ensures |r| <= |s| && r == s[|s| - |r|..]
    ensures TrimmableBetween(s, 0, |s| - |r|)
    ensures |r| > 0 ==> !IsTrimmable(r[0])
  {
    if |s| > 0 && IsTrimmable(s[0]) then
      var r := TrimStart(s[1..]);
      assert forall i :: 0 < i < |s| ==> s[i] == s[1..][i - 1];
      r
    else s
  }

  /** Drops the trailing trimmable characters. */
  function TrimEnd(s: string): (r: string)
    ensures |r| <= |s| && r == s[..|r|]
    ensures TrimmableBetween(s, |r|, |s|)
    ensures |r| > 0 ==> !IsTrimmable(r[|r| - 1])
  {
    if |s| > 0 && IsTrimmable(s[|s| - 1]) then
      var r := TrimEnd(s[..|s| - 1]);
      assert forall i :: 0 <= i < |s| - 1 ==> s[i] == s[..|s| - 1][i];
      r
    else s
  }

  /** `String.trim`: the result is trimmed at both ends and is what is left of `s`
      after removing trimmable characters from its two ends. */
  function Trim(s: string): (r: string)
    ensures IsTrimmed(r)
    ensures StripsTo(s, r)
  {
    TrimmedPartStrips(s);
    TrimEnd(TrimStart(s))
  }

  /** What is left after trimming both ends is something `s` strips to. */
  lemma TrimmedPartStrips(s: string)
    ensures StripsTo(s, TrimEnd(TrimStart(s)))
  {
    var i, j := TrimBounds(s);
  }

  /** Where the trimmed part of `s` sits inside `s`. */
  lemma TrimBounds(s: string) returns (i: int, j: int)
    ensures 0 <= i <= j <= |s| && TrimEnd(TrimStart(s)) == s[i..j]
    ensures TrimmableBetween(s, 0, i) && TrimmableBetween(s, j, |s|)
  {
    var t0 := TrimStart(s);
    var t := TrimEnd(t0);
    i := |s| - |t0|;
    j := i + |t|;
    PrefixOfSuffix(s, i, |t|);
    TrimmableShifted(s, t0, i, |t|);
  }

  /** A prefix of a suffix of `s` is a slice of `s`. */
  lemma PrefixOfSuffix(s: string, i: int, n: int)
    requires 0 <= i <= |s| && 0 <= n <= |s| - i
    ensures s[i..][..n] == s[i..i + n]
  {
  }

  /** Trimmable characters at the end of the suffix `t0 == s[i..]` are
      trimmable characters at the end of `s`. */
  lemma TrimmableShifted(s: string, t0: string, i: int, n: int)
    requires 0 <= i <= |s| && t0 == s[i..] && 0 <= n <= |t0|
    requires TrimmableBetween(t0, n, |t0|)
    ensures TrimmableBetween(s, i + n, |s|)
  {
    forall k | i + n <= k < |s|
      ensures IsTrimmable(s[k])
    {
      assert s[k] == t0[k - i];
    }
  }

  /** Two ways of stripping trimmable ends from `s` that both leave a trimmed
      string leave the same one. */
  lemma StrippedSlicesAgree(s: string, i: int, j: int, i': int, j': int)
    requires 0 <= i <= j <= |s| && 0 <= i' <= j' <= |s|
    requires TrimmableBetween(s, 0, i) && TrimmableBetween(s, j, |s|)
    requires TrimmableBetween(s, 0, i') && TrimmableBetween(s, j', |s|)
    requires IsTrimmed(s[i..j]) && IsTrimmed(s[i'..j'])
    ensures s[i..j] == s[i'..j']
  {
    if i < j && i' < j' {
      assert s[i..j][0] == s[i] && s[i..j][j - i - 1] == s[j - 1];
      assert s[i'..j'][0] == s[i'] && s[i'..j'][j' - i' - 1] == s[j' - 1];
      assert i == i' && j == j';
    } else if i < j {
      assert false;
    } else if i' < j' {
      assert false;
    }
  }

  /** `Trim` is the only trimmed string that `s` strips to, so the two
      predicates above characterise it completely. */
  lemma TrimUnique(s: string, r: string)
    requires StripsTo(s, r) && IsTrimmed(r)
    ensures r == Trim(s)
  {
    var i, j :| 0 <= i <= j <= |s| && r == s[i..j] && TrimmableBetween(s, 0, i) && TrimmableBetween(s, j, |s|);
    TrimmedSliceIsTrim(s, i, j);
  }

  /** A trimmed slice left by stripping trimmable ends is `Trim`'s result. */
  lemma TrimmedSliceIsTrim(s: string, i: int, j: int)
    requires 0 <= i <= j <= |s| && TrimmableBetween(s, 0, i) && TrimmableBetween(s, j, |s|)
    requires IsTrimmed(s[i..j])
    ensures s[i..j] == Trim(s)
  {
    var i', j' := TrimBounds(s);
    StrippedSlicesAgree(s, i, j, i', j');
  }
}
