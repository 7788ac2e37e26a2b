/** Counting values and keeping the most frequent ones, as
    `value_counts().head(n)` and `groupby(...).size().sort_values(ascending=False).head(n)`
    do. pandas breaks ties between equal counts in no documented order, so
    the contract leaves that order open. */
module Counting {
  import opened Seqs

  /** The keys of a list of (key, count) entries. */
  function Keys<T>(r: seq<(T, nat)>): (ks: seq<T>)
    ensures |ks| == |r| && forall i :: 0 <= i < |r| ==> ks[i] == r[i].0
  {
    seq(|r|, i requires 0 <= i < |r| => r[i].0)
  }

  predicate CountsDescending<T>(r: seq<(T, nat)>) {
    forall i, j :: 0 <= i < j < |r| ==> r[i].1 >= r[j].1
  }

  /** Places an entry into a list sorted by non-increasing count. */
  function InsertByCount<T>(x: (T, nat), s: seq<(T, nat)>): (r: seq<(T, nat)>)
    requires CountsDescending(s)
    ensures multiset(r) == multiset(s) + multiset{x}
    ensures CountsDescending(r)
  {
    if |s| == 0 then [x]
    else if x.1 >= s[0].1 then [x] + s
    else
      var rest := InsertByCount(x, s[1..]);
      assert s == [s[0]] + s[1..];
      InsertBehind(x, s, rest);
      [s[0]] + rest
  }

  lemma InsertBehind<T>(x: (T, nat), s: seq<(T, nat)>, rest: seq<(T, nat)>)
    requires CountsDescending(s) && |s| > 0 && s[0].1 >= x.1
    requires CountsDescending(rest) && multiset(rest) == multiset(s[1..]) + multiset{x}
    ensures CountsDescending([s[0]] + rest)
  {
    forall j | 0 <= j < |rest|
      ensures s[0].1 >= rest[j].1
    {
      assert rest[j] in multiset(rest);
      if rest[j] != x {
        assert rest[j] in multiset(s[1..]);
        var m :| 0 <= m < |s[1..]| && s[1..][m] == rest[j];
        assert s[m + 1] == rest[j];
      }
    }
  }

  /** Entries rearranged by non-increasing count. */
  function SortByCount<T>(s: seq<(T, nat)>): (r: seq<(T, nat)>)
    ensures multiset(r) == multiset(s) && |r| == |s|
    ensures CountsDescending(r)
  {
    if |s| == 0 then []
    else
      assert s == [s[0]] + s[1..];
      InsertByCount(s[0], SortByCount(s[1..]))
  }

  /** Every distinct value of `keys` with its number of occurrences, in
      order of first occurrence. */
  function Tally<T(==)>(keys: seq<T>): (r: seq<(T, nat)>)
    ensures NoDuplicates(Keys(r))
    ensures forall i :: 0 <= i < |r| ==> r[i].0 in keys && r[i].1 == multiset(keys)[r[i].0]
    ensures forall k :: 0 <= k < |keys| ==> (keys[k], multiset(keys)[keys[k]]) in r
  {
    var d := Dedup(keys);
    var r := seq(|d|, i requires 0 <= i < |d| => (d[i], multiset(keys)[d[i]]));
    assert Keys(r) == d;
    forall k | 0 <= k < |keys|
      ensures (keys[k], multiset(keys)[keys[k]]) in r
    {
      var i :| 0 <= i < |d| && d[i] == keys[k];
      assert r[i] == (keys[k], multiset(keys)[keys[k]]);
    }
    r
  }

  /** The `n` most frequent values with their counts. At most `n` entries,
      each value once, with its exact count, in non-increasing count order;
      a value that is left out occurs no more often than the last entry
      listed, and is only left out when the list is full. */
  function TopCounts<T(==)>(keys: seq<T>, n: nat): (r: seq<(T, nat)>)
    ensures |r| <= n
    ensures forall i :: 0 <= i < |r| ==> r[i].0 in keys && r[i].1 == multiset(keys)[r[i].0]
    ensures CountsDescending(r)
    ensures NoDuplicates(Keys(r))
    ensures forall k :: 0 <= k < |keys| && keys[k] !in Keys(r) ==>
              |r| == n && (n == 0 || multiset(keys)[keys[k]] <= r[n - 1].1)
  {
    var t := Tally(keys);
    var sorted := SortByCount(t);
    var r := if |sorted| <= n then sorted else sorted[..n];
    TopCountsFacts(keys, n, t, sorted, r);
    r
  }

  lemma TopCountsFacts<T>(keys: seq<T>, n: nat, t: seq<(T, nat)>, sorted: seq<(T, nat)>, r: seq<(T, nat)>)
    requires NoDuplicates(Keys(t))
    requires forall i :: 0 <= i < |t| ==> t[i].0 in keys && t[i].1 == multiset(keys)[t[i].0]
    requires forall k :: 0 <= k < |keys| ==> (keys[k], multiset(keys)[keys[k]]) in t
    requires multiset(sorted) == multiset(t) && |sorted| == |t| && CountsDescending(sorted)
    requires r == if |sorted| <= n then sorted else sorted[..n]
    ensures |r| <= n
    ensures forall i :: 0 <= i < |r| ==> r[i].0 in keys && r[i].1 == multiset(keys)[r[i].0]
    ensures CountsDescending(r)
    ensures NoDuplicates(Keys(r))
    ensures forall k :: 0 <= k < |keys| && keys[k] !in Keys(r) ==>
              |r| == n && (n == 0 || multiset(keys)[keys[k]] <= r[n - 1].1)
  {
    PermutedEntries(keys, t, sorted);
    DistinctKeysDistinctEntries(t);
    PermutationKeepsDistinct(t, sorted);
    assert sorted[..|sorted|] == sorted;
    PrefixKeysDistinct(keys, sorted, r);
    LeftOut(keys, n, sorted, r);
  }

  lemma PermutedEntries<T>(keys: seq<T>, t: seq<(T, nat)>, sorted: seq<(T, nat)>)
    requires forall i :: 0 <= i < |t| ==> t[i].0 in keys && t[i].1 == multiset(keys)[t[i].0]
    requires forall k :: 0 <= k < |keys| ==> (keys[k], multiset(keys)[keys[k]]) in t
    requires multiset(sorted) == multiset(t)
    ensures forall i :: 0 <= i < |sorted| ==> sorted[i].0 in keys && sorted[i].1 == multiset(keys)[sorted[i].0]
    ensures forall k :: 0 <= k < |keys| ==> (keys[k], multiset(keys)[keys[k]]) in sorted
  {
    forall k | 0 <= k < |keys|
      ensures (keys[k], multiset(keys)[keys[k]]) in sorted
    {
      assert (keys[k], multiset(keys)[keys[k]]) in multiset(t);
    }
    forall i | 0 <= i < |sorted|
      ensures sorted[i].0 in keys && sorted[i].1 == multiset(keys)[sorted[i].0]
    {
      assert sorted[i] in multiset(t);
    }
  }

  lemma PrefixKeysDistinct<T>(keys: seq<T>, sorted: seq<(T, nat)>, r: seq<(T, nat)>)
    requires |r| <= |sorted| && r == sorted[..|r|]
    requires NoDuplicates(sorted)
    requires forall i :: 0 <= i < |sorted| ==> sorted[i].1 == multiset(keys)[sorted[i].0]
    ensures NoDuplicates(Keys(r))
  {
    forall i, j | 0 <= i < j < |r|
      ensures Keys(r)[i] != Keys(r)[j]
    {
      assert r[i] == sorted[i] && r[j] == sorted[j];
    }
  }

  lemma LeftOut<T>(keys: seq<T>, n: nat, sorted: seq<(T, nat)>, r: seq<(T, nat)>)
    requires forall k :: 0 <= k < |keys| ==> (keys[k], multiset(keys)[keys[k]]) in sorted
    requires CountsDescending(sorted)
    requires r == if |sorted| <= n then sorted else sorted[..n]
    ensures forall k :: 0 <= k < |keys| && keys[k] !in Keys(r) ==>
              |r| == n && (n == 0 || multiset(keys)[keys[k]] <= r[n - 1].1)
  {
    forall k | 0 <= k < |keys| && keys[k] !in Keys(r)
      ensures |r| == n && (n == 0 || multiset(keys)[keys[k]] <= r[n - 1].1)
    {
      var e := (keys[k], multiset(keys)[keys[k]]);
      var m :| 0 <= m < |sorted| && sorted[m] == e;
      assert forall i :: 0 <= i < |r| ==> r[i] != e;
      assert m >= |r|;
      if n > 0 {
        assert sorted[n - 1].1 >= sorted[m].1;
      }
    }
  }

  /** A tally with distinct keys has distinct entries. */
  lemma DistinctKeysDistinctEntries<T>(t: seq<(T, nat)>)
    requires NoDuplicates(Keys(t))
    ensures NoDuplicates(t)
  {
    forall i, j | 0 <= i < j < |t|
      ensures t[i] != t[j]
    {
      assert Keys(t)[i] != Keys(t)[j];
    }
  }
}
