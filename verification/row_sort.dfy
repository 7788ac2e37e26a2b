/** `df.sort_values(column, ascending=False)` on a text column: larger
    strings first in Python's code-point order, missing values last (pandas
    puts NaN last in either direction). The default sort is not stable, so
    the contract leaves the order of rows with equal keys open; the model
    sorts by insertion, which is one of the orders pandas may produce. */
module RowSort {
  import opened Options
  import opened Text
  import opened Tables

  /** The sort key of a row: the cell at position `k`. */
  function Key(row: Row, k: nat): Cell {
    if k < |row| then row[k] else None
  }

  /** `a` may come before `b` in the descending order. */
  predicate Before(a: Cell, b: Cell) {
    match a
    case None => b.None?
    case Some(x) => b.None? || LexLe(b.value, x)
  }

  predicate SortedDesc(rows: seq<Row>, k: nat) {
    forall i, j :: 0 <= i < j < |rows| ==> Before(Key(rows[i], k), Key(rows[j], k))
  }

  lemma BeforeTotal(a: Cell, b: Cell)
    ensures Before(a, b) || Before(b, a)
  {
    if a.Some? && b.Some? {
      LexTotal(a.value, b.value);
    }
  }

  lemma BeforeTransitive(a: Cell, b: Cell, c: Cell)
    requires Before(a, b) && Before(b, c)
    ensures Before(a, c)
  {
    if a.Some? && b.Some? && c.Some? {
      LexTransitive(c.value, b.value, a.value);
    }
  }

  /** Places `x` into a sorted sequence. */
  function Insert(x: Row, s: seq<Row>, k: nat): (r: seq<Row>)
    requires SortedDesc(s, k)
    ensures multiset(r) == multiset(s) + multiset{x}
    ensures SortedDesc(r, k)
  {
    if |s| == 0 then [x]
    else if Before(Key(x, k), Key(s[0], k)) then
      InsertFront(x, s, k);
      [x] + s
    else
      BeforeTotal(Key(x, k), Key(s[0], k));
      var rest := Insert(x, s[1..], k);
      assert s == [s[0]] + s[1..];
      InsertBehind(x, s, rest, k);
      [s[0]] + rest
  }

  lemma InsertFront(x: Row, s: seq<Row>, k: nat)
    requires SortedDesc(s, k) && |s| > 0 && Before(Key(x, k), Key(s[0], k))
    ensures SortedDesc([x] + s, k)
  {
    forall j | 0 <= j < |s|
      ensures Before(Key(x, k), Key(s[j], k))
    {
      if j > 0 {
        BeforeTransitive(Key(x, k), Key(s[0], k), Key(s[j], k));
      }
    }
    var r := [x] + s;
    forall i, j | 0 <= i < j < |r|
      ensures Before(Key(r[i], k), Key(r[j], k))
    {
      if i > 0 {
        assert r[i] == s[i - 1] && r[j] == s[j - 1];
      } else {
        assert r[j] == s[j - 1];
      }
    }
  }

  lemma InsertBehind(x: Row, s: seq<Row>, rest: seq<Row>, k: nat)
    requires SortedDesc(s, k) && |s| > 0 && Before(Key(s[0], k), Key(x, k))
    requires SortedDesc(rest, k)
    requires multiset(rest) == multiset(s[1..]) + multiset{x}
    ensures SortedDesc([s[0]] + rest, k)
  {
    forall j | 0 <= j < |rest|
      ensures Before(Key(s[0], k), Key(rest[j], k))
    {
      assert rest[j] in multiset(rest);
      if rest[j] != x {
        assert rest[j] in multiset(s[1..]);
        var m :| 0 <= m < |s[1..]| && s[1..][m] == rest[j];
        assert s[m + 1] == rest[j];
      }
    }
    var r := [s[0]] + rest;
    forall i, j | 0 <= i < j < |r|
      ensures Before(Key(r[i], k), Key(r[j], k))
    {
      if i > 0 {
        assert r[i] == rest[i - 1] && r[j] == rest[j - 1];
      } else {
        assert r[j] == rest[j - 1];
      }
    }
  }

  /** The rows rearranged in descending key order. */
  function SortDesc(s: seq<Row>, k: nat): (r: seq<Row>)
    ensures multiset(r) == multiset(s)
    ensures |r| == |s|
    ensures SortedDesc(r, k)
  {
    if |s| == 0 then []
    else
      assert s == [s[0]] + s[1..];
      Insert(s[0], SortDesc(s[1..], k), k)
  }
}
