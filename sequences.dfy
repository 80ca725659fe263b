/**
 * Facts about Python lists viewed as sequences: order-preserving deletion
 * (subsequences), duplicate-free listings, and what `list.remove` deletes.
 */
module Sequences {

  /** `sub` is obtained from `s` by deleting elements, the rest kept in order. */
  predicate IsSubsequence<T(==)>(sub: seq<T>, s: seq<T>)
    decreases |s|
  {
    || sub == []
    || (&& s != []
        && (|| (sub[0] == s[0] && IsSubsequence(sub[1..], s[1..]))
            || IsSubsequence(sub, s[1..])))
  }

  /** No name occurs twice, as in a directory listing. */
  predicate Distinct<T(==)>(s: seq<T>) {
    forall i, j :: 0 <= i < j < |s| ==> s[i] != s[j]
  }

  /** Position of the first element equal to `x`. */
  function FirstIndex<T(==)>(s: seq<T>, x: T): (j: nat)
    requires x in s
    ensures j < |s| && s[j] == x
    ensures forall k :: 0 <= k < j ==> s[k] != x
  {
    if s[0] == x then 0 else 1 + FirstIndex(s[1..], x)
  }

  /** `s` with the element at position `j` deleted (Python's `del s[j]`). */
  function RemoveAt<T>(s: seq<T>, j: nat): (r: seq<T>)
    requires j < |s|
    ensures |r| == |s| - 1
  {
    s[..j] + s[j + 1..]
  }

  /** Elements before `j` keep their position; those after it move down by one. */
  lemma RemoveAtShifts<T>(s: seq<T>, j: nat)
    requires j < |s|
    ensures forall k :: 0 <= k < j ==> RemoveAt(s, j)[k] == s[k]
    ensures forall k :: j <= k < |s| - 1 ==> RemoveAt(s, j)[k] == s[k + 1]
  {
  }

  /** Python's `list.remove(x)`: deletes the first element equal to `x` and only that one. */
  function RemoveFirst<T(==)>(s: seq<T>, x: T): (r: seq<T>)
    requires x in s
    ensures |r| == |s| - 1
  {
    RemoveAt(s, FirstIndex(s, x))
  }

  /** `list.remove(x)` takes away exactly one copy of `x`. */
  lemma RemoveFirstMultiset<T>(s: seq<T>, x: T)
    requires x in s
    ensures multiset(RemoveFirst(s, x)) == multiset(s) - multiset{x}
  {
    var j := FirstIndex(s, x);
    assert s == s[..j] + [x] + s[j + 1..];
  }

  /** In a duplicate-free list, `remove(s[j])` deletes position `j`. */
  lemma RemoveFirstOfDistinct<T>(s: seq<T>, j: nat)
    requires Distinct(s) && j < |s|
    ensures RemoveFirst(s, s[j]) == RemoveAt(s, j)
  {
  }

  lemma {:induction false} SubsequenceReflexive<T>(s: seq<T>)
    ensures IsSubsequence(s, s)
  {
    if s != [] {
      SubsequenceReflexive(s[1..]);
    }
  }

  lemma {:induction false} SubsequenceTransitive<T>(a: seq<T>, b: seq<T>, c: seq<T>)
    requires IsSubsequence(a, b) && IsSubsequence(b, c)
    ensures IsSubsequence(a, c)
    decreases |a| + |b| + |c|
  {
    if a == [] {
    } else if IsSubsequence(b, c[1..]) {
      SubsequenceTransitive(a, b, c[1..]);
    } else {
      assert b[0] == c[0] && IsSubsequence(b[1..], c[1..]);
      if a[0] == b[0] && IsSubsequence(a[1..], b[1..]) {
        SubsequenceTransitive(a[1..], b[1..], c[1..]);
      } else {
        SubsequenceTransitive(a, b[1..], c[1..]);
      }
    }
  }

  /** Deleting one element leaves a subsequence. */
  lemma {:induction false} RemoveAtIsSubsequence<T>(s: seq<T>, j: nat)
    requires j < |s|
    ensures IsSubsequence(RemoveAt(s, j), s)
  {
    var r := RemoveAt(s, j);
    if j == 0 {
      assert r == s[1..];
      SubsequenceReflexive(s[1..]);
    } else {
      assert r[0] == s[0];
      assert r[1..] == RemoveAt(s[1..], j - 1);
      RemoveAtIsSubsequence(s[1..], j - 1);
    }
  }

  /** A subsequence of a duplicate-free list is duplicate-free. */
  lemma {:induction false} SubsequenceOfDistinct<T>(a: seq<T>, s: seq<T>)
    requires IsSubsequence(a, s) && Distinct(s)
    ensures Distinct(a)
    ensures forall x :: x in a ==> x in s
    decreases |s|
  {
    if a == [] {
    } else if a[0] == s[0] && IsSubsequence(a[1..], s[1..]) {
      SubsequenceOfDistinct(a[1..], s[1..]);
      forall x | x in a ensures x in s {
        if x != a[0] {
          assert x in a[1..];
          assert x in s[1..];
        }
      }
      forall i, j | 0 <= i < j < |a| ensures a[i] != a[j] {
        if i == 0 {
          assert a[j] == a[1..][j - 1];
          assert a[j] in s[1..];
          var k :| 0 <= k < |s[1..]| && s[1..][k] == a[j];
          assert s[k + 1] == a[j];
        } else {
          assert a[i] == a[1..][i - 1] && a[j] == a[1..][j - 1];
        }
      }
    } else {
      assert IsSubsequence(a, s[1..]);
      SubsequenceOfDistinct(a, s[1..]);
    }
  }

  /** A prefix is a subsequence. */
  lemma {:induction false} PrefixIsSubsequence<T>(s: seq<T>, n: nat)
    requires n <= |s|
    ensures IsSubsequence(s[..n], s)
    decreases |s| - n
  {
    if n == |s| {
      assert s[..n] == s;
      SubsequenceReflexive(s);
    } else {
      RemoveAtIsSubsequence(s[..n + 1], n);
      assert RemoveAt(s[..n + 1], n) == s[..n];
      PrefixIsSubsequence(s, n + 1);
      SubsequenceTransitive(s[..n], s[..n + 1], s);
    }
  }
}
