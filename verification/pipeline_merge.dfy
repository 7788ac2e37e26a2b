/** The pipeline's merge (Pipeline.py): the freshly downloaded rows lose the
    rows with no value at all, have their `Date/Time` cells normalised by
    `to_iso_format`, and lose their `URI` column if there is one. Without an
    earlier output file they are the result as they are, unsorted; with one,
    they are appended to it, exact duplicates are dropped keeping the first,
    and the rows are sorted by `Date/Time`, latest first, missing dates last.

    Whether the output file exists and its contents are inputs here
    (`existing`); reading and writing it are not modelled. */
module PipelineMerge {
  import opened Options
  import opened Seqs
  import opened Timestamps
  import opened Tables
  import opened RowSort
  import opened PipelineDates

  const DateColumn := "Date/Time"

  /** A date cell as the normaliser leaves it: missing, or canonical. */
  predicate CanonicalOrMissing(c: Cell) {
    c.None? || IsCanonical(c.value)
  }

  /** Every row's `Date/Time` cell is missing or canonical. */
  predicate DatesCanonical(t: Table)
    requires WellFormed(t)
  {
    forall i :: 0 <= i < |t.rows| ==> CanonicalOrMissing(At(t.header, t.rows[i], DateColumn))
  }

  /** Lines 25-29 of the script: drop all-empty rows, normalise the dates,
      drop `URI`. `None` where pandas raises `KeyError` for a missing
      `Date/Time` column. */
  function Normalise(raw: Table, parse: string -> Option<Stamp>): (r: Option<Table>)
    requires WellFormed(raw)
    ensures r.Some? <==> DateColumn in raw.header
    ensures r.Some? ==> WellFormed(r.value) && DatesCanonical(r.value)
    ensures r.Some? ==> forall c :: c in r.value.header <==> c in raw.header && c != "URI"
    ensures r.Some? ==> |r.value.rows| == |DropAllMissing(raw).rows|
    ensures r.Some? ==> forall i, c :: 0 <= i < |r.value.rows| && c != "URI" ==>
              var kept := DropAllMissing(raw);
              At(r.value.header, r.value.rows[i], c) ==
              (if c == DateColumn then ToIsoFormat(At(kept.header, kept.rows[i], c), parse)
               else At(kept.header, kept.rows[i], c))
  {
    var kept := DropAllMissing(raw);
    var dated :- MapColumn(kept, DateColumn, (c: Cell) => ToIsoFormat(c, parse));
    var r := DropColumn(dated, "URI");
    assert DatesCanonical(r) by {
      forall i | 0 <= i < |r.rows|
        ensures CanonicalOrMissing(At(r.header, r.rows[i], DateColumn))
      {
        assert At(r.header, r.rows[i], DateColumn) == At(dated.header, dated.rows[i], DateColumn);
      }
    }
    Some(r)
  }

  /** `pd.concat([existing_df, new_df]).drop_duplicates()` before the sort:
      every stacked row, earlier or new, is kept, nothing else is, and no row
      appears twice. */
  function Stacked(existing: Table, incoming: Table): (r: Table)
    requires WellFormed(existing) && WellFormed(incoming)
    ensures WellFormed(r) && NoDuplicates(r.rows)
    ensures forall c :: c in r.header <==> c in existing.header || c in incoming.header
    ensures |r.rows| <= |existing.rows| + |incoming.rows|
    ensures forall i :: 0 <= i < |Concat(existing, incoming).rows| ==> Concat(existing, incoming).rows[i] in r.rows
    ensures forall i :: 0 <= i < |r.rows| ==> r.rows[i] in Concat(existing, incoming).rows
  {
    DropDuplicates(Concat(existing, incoming))
  }

  /** `sort_values('Date/Time', ascending=False)`: the same rows, latest
      date first, missing dates last. */
  function SortByDate(t: Table): (r: Table)
    requires WellFormed(t) && DateColumn in t.header
    ensures WellFormed(r) && r.header == t.header
    ensures multiset(r.rows) == multiset(t.rows)
    ensures NoDuplicates(t.rows) ==> NoDuplicates(r.rows)
    ensures forall i, j :: 0 <= i < j < |r.rows| ==>
              Before(At(r.header, r.rows[i], DateColumn), At(r.header, r.rows[j], DateColumn))
  {
    var k := FirstIndex(t.header, DateColumn);
    var rows := SortDesc(t.rows, k);
    SameWidth(t, rows);
    SortedByDate(t.header, rows, k);
    Table(t.header, rows)
  }

  lemma SameWidth(t: Table, rows: seq<Row>)
    requires WellFormed(t) && multiset(rows) == multiset(t.rows)
    ensures WellFormed(Table(t.header, rows))
    ensures NoDuplicates(t.rows) ==> NoDuplicates(rows)
  {
    if NoDuplicates(t.rows) {
      PermutationKeepsDistinct(t.rows, rows);
    }
    forall i | 0 <= i < |rows|
      ensures |rows[i]| == |t.header|
    {
      assert rows[i] in multiset(t.rows);
    }
  }

  lemma SortedByDate(h: seq<string>, rows: seq<Row>, k: nat)
    requires DateColumn in h && k == FirstIndex(h, DateColumn)
    requires forall i :: 0 <= i < |rows| ==> |rows[i]| == |h|
    requires SortedDesc(rows, k)
    ensures forall i, j :: 0 <= i < j < |rows| ==>
              Before(At(h, rows[i], DateColumn), At(h, rows[j], DateColumn))
  {
    forall i, j | 0 <= i < j < |rows|
      ensures Before(At(h, rows[i], DateColumn), At(h, rows[j], DateColumn))
    {
      assert Key(rows[i], k) == At(h, rows[i], DateColumn);
      assert Key(rows[j], k) == At(h, rows[j], DateColumn);
    }
  }

  /** The whole script from the download to the table it writes. */
  function Merge(existing: Option<Table>, raw: Table, parse: string -> Option<Stamp>): (r: Option<Table>)
    requires existing.Some? ==> WellFormed(existing.value)
    requires WellFormed(raw)
    ensures r.Some? <==> DateColumn in raw.header
    ensures r.Some? ==> WellFormed(r.value)
    ensures r.Some? && existing.None? ==> r == Normalise(raw, parse)
    ensures r.Some? && existing.Some? ==>
              var s := Stacked(existing.value, Normalise(raw, parse).value);
              && r.value.header == s.header
              && multiset(r.value.rows) == multiset(s.rows)
              && NoDuplicates(r.value.rows)
              && forall i, j :: 0 <= i < j < |r.value.rows| ==>
                   Before(At(r.value.header, r.value.rows[i], DateColumn),
                          At(r.value.header, r.value.rows[j], DateColumn))
  {
    var incoming :- Normalise(raw, parse);
    match existing
    case None => Some(incoming)
    case Some(e) =>
      var s := Stacked(e, incoming);
      assert DateColumn in s.header;
      Some(SortByDate(s))
  }

  /** Every row written is a row of the earlier output or a normalised new
      row, and each of those is written exactly once. */
  lemma MergeKeepsEveryRow(existing: Table, raw: Table, parse: string -> Option<Stamp>)
    requires WellFormed(existing) && WellFormed(raw) && DateColumn in raw.header
    ensures var r := Merge(Some(existing), raw, parse).value;
            var c := Concat(existing, Normalise(raw, parse).value);
            && (forall i :: 0 <= i < |c.rows| ==> multiset(r.rows)[c.rows[i]] == 1)
            && (forall i :: 0 <= i < |r.rows| ==> r.rows[i] in c.rows)
  {
    var r := Merge(Some(existing), raw, parse).value;
    var c := Concat(existing, Normalise(raw, parse).value);
    var s := Stacked(existing, Normalise(raw, parse).value);
    assert s.rows == Dedup(c.rows);
    PermutedDedup(c.rows, r.rows);
  }

  lemma PermutedDedup(c: seq<Row>, r: seq<Row>)
    requires multiset(r) == multiset(Dedup(c))
    ensures forall i :: 0 <= i < |c| ==> multiset(r)[c[i]] == 1
    ensures forall i :: 0 <= i < |r| ==> r[i] in c
  {
    var d := Dedup(c);
    DistinctMultiplicity(d);
    forall i | 0 <= i < |c|
      ensures multiset(r)[c[i]] == 1
    {
      OnceInDistinct(d, c[i]);
    }
    forall i | 0 <= i < |r|
      ensures r[i] in c
    {
      assert r[i] in multiset(r);
    }
  }

  lemma OnceInDistinct(d: seq<Row>, x: Row)
    requires x in d && forall y :: multiset(d)[y] <= 1
    ensures multiset(d)[x] == 1
  {
    assert x in multiset(d);
  }

  /** Concatenation keeps the canonical-date invariant. */
  lemma ConcatKeepsDates(a: Table, b: Table)
    requires WellFormed(a) && WellFormed(b) && DatesCanonical(a) && DatesCanonical(b)
    ensures DatesCanonical(Concat(a, b))
  {
    var c := Concat(a, b);
    forall i | 0 <= i < |c.rows|
      ensures CanonicalOrMissing(At(c.header, c.rows[i], DateColumn))
    {
      if i >= |a.rows| {
        assert At(c.header, c.rows[|a.rows| + (i - |a.rows|)], DateColumn) ==
               At(b.header, b.rows[i - |a.rows|], DateColumn);
      }
    }
  }

  /** A table whose rows all come from a table with the invariant has it
      too. */
  lemma SubsetKeepsDates(t: Table, u: Table)
    requires WellFormed(t) && WellFormed(u) && u.header == t.header && DatesCanonical(t)
    requires forall i :: 0 <= i < |u.rows| ==> u.rows[i] in t.rows
    ensures DatesCanonical(u)
  {
    forall i | 0 <= i < |u.rows|
      ensures CanonicalOrMissing(At(u.header, u.rows[i], DateColumn))
    {
      var j :| 0 <= j < |t.rows| && t.rows[j] == u.rows[i];
    }
  }

  /** The written table keeps the canonical-date invariant: when every date
      of the earlier output is canonical or missing, so is every date
      written. */
  lemma MergeKeepsDatesCanonical(existing: Option<Table>, raw: Table, parse: string -> Option<Stamp>)
    requires existing.Some? ==> WellFormed(existing.value) && DatesCanonical(existing.value)
    requires WellFormed(raw) && DateColumn in raw.header
    ensures DatesCanonical(Merge(existing, raw, parse).value)
  {
    if existing.Some? {
      var e := existing.value;
      var incoming := Normalise(raw, parse).value;
      var c := Concat(e, incoming);
      var r := Merge(existing, raw, parse).value;
      ConcatKeepsDates(e, incoming);
      MergeKeepsEveryRow(e, raw, parse);
      SubsetKeepsDates(c, r);
    }
  }

  /** Running the merge on an earlier output without duplicates, with no new
      rows that hold any value, writes the earlier rows again. */
  lemma MergeNothingNew(existing: Table, raw: Table, parse: string -> Option<Stamp>)
    requires WellFormed(existing) && NoDuplicates(existing.rows)
    requires WellFormed(raw) && DateColumn in raw.header && raw.header == existing.header
    requires "URI" !in raw.header
    requires forall i :: 0 <= i < |raw.rows| ==> AllMissing(raw.rows[i])
    ensures multiset(Merge(Some(existing), raw, parse).value.rows) == multiset(existing.rows)
  {
    var incoming := Normalise(raw, parse).value;
    assert |incoming.rows| == 0;
    assert incoming.header == existing.header;
    ConcatSameHeader(existing, incoming);
    assert existing.rows + incoming.rows == existing.rows;
    DedupOfDistinct(existing.rows);
  }
}
