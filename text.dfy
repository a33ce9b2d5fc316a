/**
 * Substring search and Python's `str.split(sep)` on strings (`seq<char>`),
 * as used by the reference-code extraction.
 */
module Text {
  import opened Optional

  /** `pat` occurs in `s` starting at index `i`. */
  predicate OccursAt(s: string, pat: string, i: int) {
    0 <= i && i + |pat| <= |s| && s[i..i + |pat|] == pat
  }

  /** Python's `pat in s`. */
  predicate Contains(s: string, pat: string) {
    exists i :: 0 <= i <= |s| && OccursAt(s, pat, i)
  }

  /** Python's `s.find(pat, from)`: the first occurrence at or after `from`. */
  function Find(s: string, pat: string, from: nat): (r: Option<nat>)
    requires from <= |s|
    ensures r.Some? ==> from <= r.value && OccursAt(s, pat, r.value)
    ensures r.Some? ==> forall j :: from <= j < r.value ==> !OccursAt(s, pat, j)
    ensures r.None? ==> forall j :: from <= j ==> !OccursAt(s, pat, j)
    decreases |s| - from
  {
    if from + |pat| > |s| then None
    else if s[from..from + |pat|] == pat then Some(from)
    else Find(s, pat, from + 1)
  }

  /** `Find` from the start returns the first occurrence. */
  lemma FindIsFirst(s: string, pat: string, i: nat)
    requires OccursAt(s, pat, i) && forall j :: 0 <= j < i ==> !OccursAt(s, pat, j)
    ensures Find(s, pat, 0) == Some(i)
  {
    match Find(s, pat, 0)
    case None =>
    case Some(r) =>
  }

  /** Python's `s.split(sep)` for a non-empty separator. */
  function Split(s: string, sep: string): (parts: seq<string>)
    requires |sep| > 0
    ensures |parts| >= 1
    ensures |parts| >= 2 <==> Contains(s, sep)
    decreases |s|
  {
    match Find(s, sep, 0)
    case None => [s]
    case Some(i) => [s[..i]] + Split(s[i + |sep|..], sep)
  }

  /** Python's `sep.join(parts)`; the inverse of `Split`. */
  function Join(parts: seq<string>, sep: string): string
    requires |parts| >= 1
  {
    if |parts| == 1 then parts[0] else parts[0] + sep + Join(parts[1..], sep)
  }

  /** Nothing before the first occurrence contains the separator. */
  lemma PrefixBeforeFirstIsFree(s: string, sep: string, i: nat)
    requires |sep| > 0 && Find(s, sep, 0) == Some(i)
    ensures !Contains(s[..i], sep)
  {
    assert OccursAt(s, sep, i);
    var pre := s[..i];
    if Contains(pre, sep) {
      var j :| 0 <= j <= |pre| && OccursAt(pre, sep, j);
      assert pre[j..j + |sep|] == s[j..j + |sep|];
      assert OccursAt(s, sep, j);
    }
  }

  /** Splitting and joining again gives back the original string. */
  lemma {:induction false} JoinSplit(s: string, sep: string)
    requires |sep| > 0
    ensures Join(Split(s, sep), sep) == s
    decreases |s|
  {
    match Find(s, sep, 0)
    case None =>
    case Some(i) =>
      assert OccursAt(s, sep, i);
      var rest := s[i + |sep|..];
      var parts := Split(s, sep);
      assert parts == [s[..i]] + Split(rest, sep);
      JoinSplit(rest, sep);
      assert parts[1..] == Split(rest, sep);
      calc {
        Join(parts, sep);
        s[..i] + sep + Join(Split(rest, sep), sep);
        s[..i] + sep + rest;
        { assert s[i..i + |sep|] == sep; }
        s;
      }
  }

  /** No piece of a split contains the separator. */
  lemma {:induction false} SplitPiecesAreFree(s: string, sep: string)
    requires |sep| > 0
    ensures forall k :: 0 <= k < |Split(s, sep)| ==> !Contains(Split(s, sep)[k], sep)
    decreases |s|
  {
    match Find(s, sep, 0)
    case None =>
      assert Split(s, sep) == [s];
      assert !OccursAt(s, sep, 0);
    case Some(i) =>
      var rest := s[i + |sep|..];
      PrefixBeforeFirstIsFree(s, sep, i);
      SplitPiecesAreFree(rest, sep);
      assert Split(s, sep) == [s[..i]] + Split(rest, sep);
  }

  /** A prefix of a string free of `pat` is free of `pat` too. */
  lemma PrefixIsFree(s: string, pat: string, n: nat)
    requires n <= |s| && !Contains(s, pat)
    ensures !Contains(s[..n], pat)
  {
    forall j | 0 <= j <= n && OccursAt(s[..n], pat, j) ensures OccursAt(s, pat, j) {
      assert s[..n][j..j + |pat|] == s[j..j + |pat|];
    }
  }

  /** An occurrence in a suffix is an occurrence in the whole string. */
  lemma OccursInSuffix(s: string, pat: string, start: nat, k: nat)
    requires start <= |s| && OccursAt(s[start..], pat, k)
    ensures OccursAt(s, pat, start + k)
  {
    assert s[start..][k..k + |pat|] == s[start + k..start + k + |pat|];
  }

  /**
   * The first piece of a split is the text before the first occurrence of
   * the separator, or the whole string: no occurrence starts inside it, and
   * it is followed either by the end of the string or by the separator.
   */
  lemma FirstPiece(s: string, sep: string)
    requires |sep| > 0
    ensures var p := Split(s, sep)[0];
      && |p| <= |s| && p == s[..|p|] && !Contains(p, sep)
      && (|p| == |s| || OccursAt(s, sep, |p|))
      && (forall j :: 0 <= j < |p| ==> !OccursAt(s, sep, j))
  {
    match Find(s, sep, 0)
    case None =>
      assert !OccursAt(s, sep, 0);
    case Some(i) =>
      PrefixBeforeFirstIsFree(s, sep, i);
  }
}
