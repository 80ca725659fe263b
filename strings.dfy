/** The two Python string operations the pipeline relies on. */
module Strings {

  /** Python's `s.endswith(suffix)`: exact, case-sensitive suffix match. */
  predicate EndsWith(s: string, suffix: string): (b: bool)
    ensures b <==> |suffix| <= |s| && s[..|s| - |suffix|] + suffix == s
  {
    |suffix| <= |s| && s[|s| - |suffix|..] == suffix
  }

  /** `pat` occurs in `s` starting at position `i`. */
  predicate OccursAt(s: string, pat: string, i: nat) {
    i + |pat| <= |s| && s[i..i + |pat|] == pat
  }

  /**
   * Python's `s.replace(pat, '')` for a non-empty `pat`: scanning left to
   * right, every non-overlapping occurrence of `pat` is deleted, wherever it
   * stands in `s`.
   */
  function RemoveAll(s: string, pat: string): (r: string)
    requires pat != []
    ensures |r| <= |s|
    decreases |s|
  {
    if |s| < |pat| then s
    else if s[..|pat|] == pat then RemoveAll(s[|pat|..], pat)
    else [s[0]] + RemoveAll(s[1..], pat)
  }

  /** A string in which `pat` never occurs is left as it is. */
  lemma {:induction false} RemoveAllNoOccurrence(s: string, pat: string)
    requires pat != [] && forall i: nat :: !OccursAt(s, pat, i)
    ensures RemoveAll(s, pat) == s
    decreases |s|
  {
    if |s| >= |pat| {
      assert !OccursAt(s, pat, 0);
      assert forall i: nat :: OccursAt(s[1..], pat, i) ==> OccursAt(s, pat, i + 1);
      RemoveAllNoOccurrence(s[1..], pat);
      assert [s[0]] + s[1..] == s;
    }
  }

  /** A first character that cannot start `pat` is copied and the scan moves on. */
  lemma RemoveAllStep(s: string, pat: string)
    requires pat != [] && s != [] && s[0] != pat[0]
    ensures RemoveAll(s, pat) == [s[0]] + RemoveAll(s[1..], pat)
  {
    if |s| < |pat| {
      assert [s[0]] + s[1..] == s;
    } else {
      assert s[..|pat|][0] == s[0];
    }
  }

  /** A prefix free of `pat`'s first character is copied through unchanged. */
  lemma {:induction false} RemoveAllSkipsStem(stem: string, pat: string, tail: string)
    requires pat != [] && pat[0] !in stem
    ensures RemoveAll(stem + tail, pat) == stem + RemoveAll(tail, pat)
    decreases |stem|
  {
    var s := stem + tail;
    if stem == [] {
      assert s == tail;
    } else {
      assert s[0] == stem[0] && s[1..] == stem[1..] + tail;
      RemoveAllStep(s, pat);
      RemoveAllSkipsStem(stem[1..], pat, tail);
      assert stem == [stem[0]] + stem[1..];
    }
  }

  /** A leading occurrence is deleted and the scan resumes after it. */
  lemma RemoveAllLeading(pat: string, tail: string)
    requires pat != []
    ensures RemoveAll(pat + tail, pat) == RemoveAll(tail, pat)
  {
    assert (pat + tail)[..|pat|] == pat;
    assert (pat + tail)[|pat|..] == tail;
  }

  /**
   * What `replace(pat, '')` does with the first occurrence: everything before
   * it is kept, the occurrence is deleted, and the scan resumes after it.
   */
  lemma {:induction false} RemoveAllFirstOccurrence(u: string, pat: string, v: string)
    requires pat != [] && forall i: nat :: i < |u| ==> !OccursAt(u + pat + v, pat, i)
    ensures RemoveAll(u + pat + v, pat) == u + RemoveAll(v, pat)
    decreases |u|
  {
    if u == [] {
      assert u + pat + v == pat + v;
      RemoveAllLeading(pat, v);
    } else {
      RemoveAllBeforeOccurrence(u, pat, v);
      RemoveAllFirstOccurrence(u[1..], pat, v);
      assert [u[0]] + (u[1..] + RemoveAll(v, pat)) == u + RemoveAll(v, pat);
    }
  }

  /** One step of `RemoveAllFirstOccurrence`: the first character of `u` is copied. */
  lemma RemoveAllBeforeOccurrence(u: string, pat: string, v: string)
    requires u != [] && pat != [] && forall i: nat :: i < |u| ==> !OccursAt(u + pat + v, pat, i)
    ensures RemoveAll(u + pat + v, pat) == [u[0]] + RemoveAll(u[1..] + pat + v, pat)
    ensures forall i: nat :: i < |u[1..]| ==> !OccursAt(u[1..] + pat + v, pat, i)
  {
    var s := u + pat + v;
    assert s[1..] == u[1..] + pat + v;
    NoOccurrenceShift(s, pat, |u|);
    RemoveAllMiss(s, pat);
  }

  /** A position where `pat` does not start is copied and the scan moves on. */
  lemma RemoveAllMiss(s: string, pat: string)
    requires pat != [] && s != [] && !OccursAt(s, pat, 0)
    ensures RemoveAll(s, pat) == [s[0]] + RemoveAll(s[1..], pat)
  {
    if |s| < |pat| {
      assert [s[0]] + s[1..] == s;
    }
  }

  /** No occurrence in `s` before `j` means none in `s[1..]` before `j - 1`. */
  lemma NoOccurrenceShift(s: string, pat: string, j: nat)
    requires s != [] && forall i: nat :: i < j ==> !OccursAt(s, pat, i)
    ensures forall i: nat :: i < j - 1 ==> !OccursAt(s[1..], pat, i)
  {
    forall i: nat | i < j - 1
      ensures !OccursAt(s[1..], pat, i)
    {
      OccursShift(s, pat, i);
    }
  }

  /** An occurrence in `s[1..]` at `i` is an occurrence in `s` at `i + 1`. */
  lemma OccursShift(s: string, pat: string, i: nat)
    requires s != []
    ensures OccursAt(s[1..], pat, i) <==> OccursAt(s, pat, i + 1)
  {
    if i + 1 + |pat| <= |s| {
      assert s[1..][i..i + |pat|] == s[i + 1..i + 1 + |pat|];
    }
  }

  /** A name whose only occurrence of `pat` is a trailing copy loses exactly that copy. */
  lemma RemoveAllTrailing(stem: string, pat: string)
    requires pat != [] && pat[0] !in stem
    ensures RemoveAll(stem + pat, pat) == stem
  {
    var none: string := [];
    RemoveAllSkipsStem(stem, pat, pat);
    RemoveAllLeading(pat, none);
    assert pat + none == pat;
    assert stem + none == stem;
  }

  /**
   * A name ending in another extension of the same length, starting with the
   * same character as `pat` but differing from it, keeps that extension.
   */
  lemma RemoveAllKeepsOtherExtension(stem: string, ext: string, pat: string)
    requires pat != [] && |ext| == |pat| && ext != pat && ext[0] == pat[0]
    requires pat[0] !in stem && pat[0] !in ext[1..]
    ensures RemoveAll(stem + ext, pat) == stem + ext
  {
    var s := stem + ext;
    assert forall i: nat :: !OccursAt(s, pat, i);
    RemoveAllNoOccurrence(s, pat);
  }

  /** A string without the first character of `pat` is left as it is. */
  lemma RemoveAllAbsent(s: string, pat: string)
    requires pat != [] && pat[0] !in s
    ensures RemoveAll(s, pat) == s
  {
    forall i: nat | i + |pat| <= |s| ensures !OccursAt(s, pat, i) {
      assert s[i..i + |pat|][0] == s[i];
    }
    RemoveAllNoOccurrence(s, pat);
  }
}
