/** Sequence vocabulary shared by the merge and the analytics: distinctness,
    first occurrences, order-preserving filtering and pandas' keep-first
    duplicate removal. */
module Seqs {

  /** No element occurs twice. */
  predicate NoDuplicates<T(==)>(s: seq<T>) {
    forall i, j :: 0 <= i < j < |s| ==> s[i] != s[j]
  }

  /** `a` can be obtained from `b` by deleting elements (order is kept). */
  predicate IsSubsequence<T(==)>(a: seq<T>, b: seq<T>)
    decreases |b|
  {
    |a| == 0 ||
    (|b| > 0 &&
     ((a[0] == b[0] && IsSubsequence(a[1..], b[1..])) || IsSubsequence(a, b[1..])))
  }

  /** Position of the first occurrence of `x` in `s`. */
  function FirstIndex<T(==)>(s: seq<T>, x: T): (i: nat)
    requires x in s
    ensures i < |s| && s[i] == x
    ensures x !in s[..i]
  {
    if s[0] == x then 0
    else
      var i := 1 + FirstIndex(s[1..], x);
      assert s[..i] == [s[0]] + s[1..][..i - 1];
      i
  }

  /** The elements of `s` that satisfy `p`, in their original order: each
      passing element with all its occurrences, and nothing else. */
  function Filter<T(==,!new)>(s: seq<T>, p: T -> bool): (r: seq<T>)
    ensures |r| <= |s|
    ensures forall x :: multiset(r)[x] == if p(x) then multiset(s)[x] else 0
    ensures forall i :: 0 <= i < |r| ==> r[i] in s && p(r[i])
    ensures forall i :: 0 <= i < |s| && p(s[i]) ==> s[i] in r
    ensures IsSubsequence(r, s)
    ensures (forall i :: 0 <= i < |s| ==> !p(s[i])) ==> r == []
  {
    if |s| == 0 then []
    else
      var rest := Filter(s[1..], p);
      assert s == [s[0]] + s[1..];
      var r := if p(s[0]) then [s[0]] + rest else rest;
      FilterMembers(s, p, r);
      r
  }

  /** Membership follows from the multiplicities. */
  lemma FilterMembers<T>(s: seq<T>, p: T -> bool, r: seq<T>)
    requires forall x :: multiset(r)[x] == if p(x) then multiset(s)[x] else 0
    ensures forall i :: 0 <= i < |r| ==> r[i] in s && p(r[i])
    ensures forall i :: 0 <= i < |s| && p(s[i]) ==> s[i] in r
  {
    forall i | 0 <= i < |r|
      ensures r[i] in s && p(r[i])
    {
      assert r[i] in multiset(r);
    }
    forall i | 0 <= i < |s| && p(s[i])
      ensures s[i] in r
    {
      assert s[i] in multiset(s);
    }
  }

  /** pandas `drop_duplicates()` with the default keep="first": every element
      survives once, at its first occurrence. Built from the back, so that
      `Dedup(s + [x])` only looks at whether `x` was already seen. */
  function Dedup<T(==)>(s: seq<T>): (r: seq<T>)
    ensures NoDuplicates(r)
    ensures forall i :: 0 <= i < |r| ==> r[i] in s
    ensures forall i :: 0 <= i < |s| ==> s[i] in r
    ensures |r| <= |s|
  {
    if |s| == 0 then []
    else
      var init := s[..|s| - 1];
      var last := s[|s| - 1];
      assert s == init + [last];
      var p := Dedup(init);
      if last in p then p else p + [last]
  }

  lemma {:induction false} FirstIndexOfPrefix<T>(p: seq<T>, q: seq<T>, y: T)
    requires y in p
    ensures FirstIndex(p + q, y) == FirstIndex(p, y)
  {
    if p[0] != y {
      assert (p + q)[1..] == p[1..] + q;
      FirstIndexOfPrefix(p[1..], q, y);
    }
  }

  /** The survivors of `Dedup` appear in the order of their first occurrence
      in the input. Together with the contract of `Dedup` this pins the result
      down completely. */
  lemma {:induction false} DedupKeepsFirstOccurrenceOrder<T>(s: seq<T>)
    ensures forall i, j :: 0 <= i < j < |Dedup(s)| ==>
              FirstIndex(s, Dedup(s)[i]) < FirstIndex(s, Dedup(s)[j])
  {
    if |s| > 0 {
      var init := s[..|s| - 1];
      var last := s[|s| - 1];
      assert s == init + [last];
      DedupKeepsFirstOccurrenceOrder(init);
      var p := Dedup(init);
      forall y | y in p
        ensures FirstIndex(s, y) == FirstIndex(init, y)
      {
        FirstIndexOfPrefix(init, [last], y);
      }
      if last !in p {
        assert FirstIndex(s, last) == |init|;
        assert Dedup(s) == p + [last];
      }
    }
  }

  /** Appending elements that were all seen already changes nothing. */
  lemma {:induction false} DedupAppendSeen<T>(s: seq<T>, t: seq<T>)
    requires forall x :: x in t ==> x in s
    ensures Dedup(s + t) == Dedup(s)
  {
    if |t| > 0 {
      var t' := t[..|t| - 1];
      assert (s + t)[..|s + t| - 1] == s + t';
      assert (s + t)[|s + t| - 1] == t[|t| - 1];
      DedupAppendSeen(s, t');
    } else {
      assert s + t == s;
    }
  }

  /** Deduplicating a dataset concatenated with itself yields the
      deduplicated dataset: merging a dataset with itself adds nothing. */
  lemma DedupSelfConcat<T>(s: seq<T>)
    ensures Dedup(s + s) == Dedup(s)
  {
    DedupAppendSeen(s, s);
  }

  /** The survivors of the left part come first, unchanged: rows of the
      earlier table take precedence. */
  lemma {:induction false} DedupPrefix<T>(s: seq<T>, t: seq<T>)
    ensures |Dedup(s)| <= |Dedup(s + t)|
    ensures Dedup(s + t)[..|Dedup(s)|] == Dedup(s)
  {
    if |t| == 0 {
      assert s + t == s;
    } else {
      var t' := t[..|t| - 1];
      assert (s + t)[..|s + t| - 1] == s + t';
      DedupPrefix(s, t');
    }
  }

  /** A sequence without duplicates is left as it is. */
  lemma {:induction false} DedupOfDistinct<T>(s: seq<T>)
    requires NoDuplicates(s)
    ensures Dedup(s) == s
  {
    if |s| > 0 {
      var init := s[..|s| - 1];
      DedupOfDistinct(init);
      assert s[|s| - 1] !in init;
      assert s == init + [s[|s| - 1]];
    }
  }

  lemma {:induction false} DistinctMultiplicity<T>(s: seq<T>)
    requires NoDuplicates(s)
    ensures forall x :: multiset(s)[x] <= 1
  {
    if |s| > 0 {
      var init := s[..|s| - 1];
      DistinctMultiplicity(init);
      assert s == init + [s[|s| - 1]];
      assert s[|s| - 1] !in multiset(init);
    }
  }

  lemma RepeatedMultiplicity<T>(s: seq<T>, i: int, j: int)
    requires 0 <= i < j < |s| && s[i] == s[j]
    ensures multiset(s)[s[i]] >= 2
  {
    assert s == s[..j] + [s[j]] + s[j + 1..];
    assert s[i] in multiset(s[..j]);
  }

  /** A rearrangement of a duplicate-free sequence is duplicate-free. */
  lemma PermutationKeepsDistinct<T>(a: seq<T>, b: seq<T>)
    requires multiset(a) == multiset(b)
    requires NoDuplicates(a)
    ensures NoDuplicates(b)
  {
    DistinctMultiplicity(a);
    forall i, j | 0 <= i < j < |b|
      ensures b[i] != b[j]
    {
      if b[i] == b[j] {
        RepeatedMultiplicity(b, i, j);
      }
    }
  }
}
