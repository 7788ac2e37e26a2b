/** The dashboard's merge: the recent plays lose their `URI` column if they
    have one, are appended to the archived history, exact duplicate rows are
    dropped keeping the first, and only then is every `Date/Time` cell
    rewritten by `convert_to_iso_format`. Because duplicates are removed
    before the dates are normalised, two rows that differ only in how their
    date is written both survive, and may be equal afterwards. */
module DashboardMerge {
  import opened Options
  import opened Seqs
  import opened Text
  import opened Timestamps
  import opened Tables
  import opened DashboardDates

  /** The recent plays without their `URI` column. */
  function Recent(recent: Table): Table
    requires WellFormed(recent)
  {
    DropColumn(recent, "URI")
  }

  /** History followed by the trimmed recent plays, before deduplication. */
  function Stacked(history: Table, recent: Table): Table
    requires WellFormed(history) && WellFormed(recent)
  {
    Concat(history, Recent(recent))
  }

  /** The combined table of the dashboard's update step, before the date
      conversion. */
  function Combine(history: Table, recent: Table): (r: Table)
    requires WellFormed(history) && WellFormed(recent)
    ensures WellFormed(r)
    ensures NoDuplicates(r.rows)
    ensures |r.rows| <= |history.rows| + |recent.rows|
    ensures forall c :: c in r.header <==> c in history.header || (c in recent.header && c != "URI")
    ensures "URI" in r.header <==> "URI" in history.header
    ensures forall i :: 0 <= i < |Stacked(history, recent).rows| ==> Stacked(history, recent).rows[i] in r.rows
    ensures forall i :: 0 <= i < |r.rows| ==> r.rows[i] in Stacked(history, recent).rows
  {
    DropDuplicates(Stacked(history, recent))
  }

  /** `x` under header `h1` holds what `y` holds under `h2` in every column
      except `skip`. */
  ghost predicate AgreesExcept(h1: seq<string>, x: Row, h2: seq<string>, y: Row, skip: string)
    requires |x| == |h1| && |y| == |h2|
  {
    forall c :: c != skip ==> At(h1, x, c) == At(h2, y, c)
  }

  /** Every archived play is in the result, with all its cells. */
  lemma CombineKeepsHistory(history: Table, recent: Table, i: int)
    requires WellFormed(history) && WellFormed(recent)
    requires 0 <= i < |history.rows|
    ensures var r := Combine(history, recent);
            exists j :: 0 <= j < |r.rows| && AgreesExcept(r.header, r.rows[j], history.header, history.rows[i], "")
  {
    var s := Stacked(history, recent);
    var r := Combine(history, recent);
    assert s.rows[i] in r.rows;
    var j :| 0 <= j < |r.rows| && r.rows[j] == s.rows[i];
    assert AgreesExcept(r.header, r.rows[j], history.header, history.rows[i], "") by {
      forall c
        ensures At(r.header, r.rows[j], c) == At(history.header, history.rows[i], c)
      {
      }
    }
  }

  /** Every recent play is in the result with all its cells except the `URI`,
      which reads as missing. */
  lemma CombineKeepsRecent(history: Table, recent: Table, i: int)
    requires WellFormed(history) && WellFormed(recent)
    requires 0 <= i < |recent.rows|
    ensures var r := Combine(history, recent);
            exists j :: 0 <= j < |r.rows| &&
              AgreesExcept(r.header, r.rows[j], recent.header, recent.rows[i], "URI") &&
              At(r.header, r.rows[j], "URI") == None
  {
    var s := Stacked(history, recent);
    var r := Combine(history, recent);
    var k := |history.rows| + i;
    StackedRecentRow(history, recent, i);
    assert s.rows[k] in r.rows;
    var j :| 0 <= j < |r.rows| && r.rows[j] == s.rows[k];
    assert r.header == s.header;
    assert AgreesExcept(r.header, r.rows[j], recent.header, recent.rows[i], "URI");
  }

  /** A recent row, once stacked under the history, keeps every cell but
      the `URI`, which reads as missing. */
  lemma StackedRecentRow(history: Table, recent: Table, i: int)
    requires WellFormed(history) && WellFormed(recent)
    requires 0 <= i < |recent.rows|
    ensures var s := Stacked(history, recent);
            var k := |history.rows| + i;
            && WellFormed(s) && k < |s.rows|
            && At(s.header, s.rows[k], "URI") == None
            && forall c :: c != "URI" ==> At(s.header, s.rows[k], c) == At(recent.header, recent.rows[i], c)
  {
    var d := Recent(recent);
    var s := Stacked(history, recent);
    var k := |history.rows| + i;
    assert forall c :: At(s.header, s.rows[k], c) == At(d.header, d.rows[i], c);
  }

  /** The survivors keep the order of their first occurrence in history
      followed by recent plays, and the history's own survivors come first,
      unchanged. */
  lemma CombineOrder(history: Table, recent: Table)
    requires WellFormed(history) && WellFormed(recent)
    ensures var s := Stacked(history, recent).rows; var r := Combine(history, recent).rows;
            forall i, j :: 0 <= i < j < |r| ==> FirstIndex(s, r[i]) < FirstIndex(s, r[j])
    ensures var s := Stacked(history, recent).rows; var r := Combine(history, recent).rows;
            var top := Dedup(s[..|history.rows|]);
            |top| <= |r| && r[..|top|] == top
  {
    var s := Stacked(history, recent).rows;
    DedupKeepsFirstOccurrenceOrder(s);
    DedupPrefix(s[..|history.rows|], s[|history.rows|..]);
    assert s[..|history.rows|] + s[|history.rows|..] == s;
  }

  /** Combining a history with a recent table that adds nothing new gives
      the deduplicated history back. */
  lemma CombineWithItself(history: Table)
    requires WellFormed(history) && "URI" !in history.header
    ensures Combine(history, history) == DropDuplicates(history)
  {
    ConcatSameHeader(history, history);
    DedupSelfConcat(history.rows);
  }

  /** The full update step: combine, then convert the `Date/Time` column;
      `None` where pandas raises `KeyError` because neither table has that
      column. Every date cell of the result is present, and is either a
      canonical timestamp with zero seconds or the original text without
      its surrounding double quotes; it is the converted date of the same
      combined row, and every other cell of that row is kept as it was. */
  function Merge(history: Table, recent: Table): (r: Option<Table>)
    requires WellFormed(history) && WellFormed(recent)
    ensures r.Some? <==> "Date/Time" in history.header || "Date/Time" in recent.header
    ensures r.Some? ==> WellFormed(r.value) && r.value.header == Combine(history, recent).header
    ensures r.Some? ==> |r.value.rows| == |Combine(history, recent).rows|
    ensures r.Some? ==> forall i :: 0 <= i < |r.value.rows| ==>
              var before := At(r.value.header, Combine(history, recent).rows[i], "Date/Time");
              var after := At(r.value.header, r.value.rows[i], "Date/Time");
              after.Some? &&
              (after.value == Strip(PyStr(before), '"') || WholeMinute(after.value))
    ensures r.Some? ==> forall i, c :: 0 <= i < |r.value.rows| ==>
              var before := Combine(history, recent);
              At(r.value.header, r.value.rows[i], c) ==
              (if c == "Date/Time" then ConvertCell(At(before.header, before.rows[i], c))
               else At(before.header, before.rows[i], c))
  {
    MapColumn(Combine(history, recent), "Date/Time", ConvertCell)
  }

  /** The conversion settles the dates: converting the merged table's
      `Date/Time` column again changes nothing. */
  lemma MergeConversionSettles(history: Table, recent: Table)
    requires WellFormed(history) && WellFormed(recent)
    requires Merge(history, recent).Some?
    ensures MapColumn(Merge(history, recent).value, "Date/Time", ConvertCell) == Merge(history, recent)
  {
    MappedDatesSettle(Combine(history, recent));
  }

  lemma MappedDatesSettle(c: Table)
    requires WellFormed(c) && "Date/Time" in c.header
    ensures var m := MapColumn(c, "Date/Time", ConvertCell).value;
            MapColumn(m, "Date/Time", ConvertCell) == Some(m)
  {
    var m := MapColumn(c, "Date/Time", ConvertCell).value;
    var again := MapColumn(m, "Date/Time", ConvertCell).value;
    var k := FirstIndex(c.header, "Date/Time");
    forall i | 0 <= i < |m.rows|
      ensures again.rows[i] == m.rows[i]
    {
      var x := c.rows[i];
      MapColumnRow(c, "Date/Time", ConvertCell, i);
      MapColumnRow(m, "Date/Time", ConvertCell, i);
      ConvertCellIdempotent(x[k]);
      assert m.rows[i][k] == ConvertCell(x[k]);
      UpdateSame(m.rows[i], k, ConvertCell(m.rows[i][k]));
    }
    assert |again.rows| == |m.rows| && again.header == m.header;
    assert again.rows == m.rows;
  }

  lemma UpdateSame(x: Row, k: nat, v: Cell)
    requires k < |x| && x[k] == v
    ensures x[k := v] == x
  {
  }

  // ---------------------------------------------------------------------
  // Duplicates that differ only in date format

  /** Rows that differ only in their date cell, and whose dates convert to
      the same text, are equal after the conversion. */
  lemma ConvertedTwinsEqual(h: seq<string>, x0: Row, x1: Row, y0: Row, y1: Row)
    requires NoDuplicates(h)
    requires |x0| == |h| && |x1| == |h| && |y0| == |h| && |y1| == |h|
    requires forall c :: c != "Date/Time" ==> At(h, x0, c) == At(h, x1, c)
    requires ConvertCell(At(h, x0, "Date/Time")) == ConvertCell(At(h, x1, "Date/Time"))
    requires forall c :: At(h, y0, c) == if c == "Date/Time" then ConvertCell(At(h, x0, c)) else At(h, x0, c)
    requires forall c :: At(h, y1, c) == if c == "Date/Time" then ConvertCell(At(h, x1, c)) else At(h, x1, c)
    ensures y0 == y1
  {
    forall c
      ensures At(h, y0, c) == At(h, y1, c)
    {
    }
    RowsEqualIffSameCells(h, y0, y1);
  }

  /** A header as both spreadsheets have it: the date first, no `URI`. */
  predicate DatedHeader(h: seq<string>) {
    NoDuplicates(h) && |h| > 0 && h[0] == "Date/Time" && "URI" !in h
  }

  /** The same play, once in the spreadsheet's long form in the history and
      once in canonical form among the recent plays, survives the merge
      twice: both rows are kept, and after conversion they are equal. */
  lemma FormatTwinsSurvive(h: seq<string>, d: Stamp, rest: Row)
    requires DatedHeader(h) && |rest| == |h| - 1
    requires d.second == 0
    ensures var long := [Some(RenderLongForm(d))] + rest;
            var iso := [Some(FormatIso(d))] + rest;
            var m := Merge(Table(h, [long]), Table(h, [iso]));
            m.Some? && |m.value.rows| == 2 && m.value.rows[0] == m.value.rows[1]
  {
    var long := [Some(RenderLongForm(d))] + rest;
    var iso := [Some(FormatIso(d))] + rest;
    RenderLongFormEnds(d);
    assert long[0] != iso[0] by {
      assert FormatIso(d)[0] == Pad4(d.year)[0];
    }
    ConvertLongForm(d);
    ConvertKeepsCanonical(FormatIso(d));
    assert long[1..] == rest == iso[1..];
    TwinsCombine(h, long, iso);
    MappedTwins(h, long, iso);
  }

  /** Converting the date column of the two rows makes them equal. */
  lemma MappedTwins(h: seq<string>, long: Row, iso: Row)
    requires DatedHeader(h)
    requires |long| == |h| && |iso| == |h| && long[1..] == iso[1..]
    requires ConvertCell(long[0]) == ConvertCell(iso[0])
    ensures WellFormed(Table(h, [long, iso]))
    ensures var m := MapColumn(Table(h, [long, iso]), "Date/Time", ConvertCell);
            m.Some? && |m.value.rows| == 2 && m.value.rows[0] == m.value.rows[1]
  {
    var t := Table(h, [long, iso]);
    DatedHeaderFacts(h);
    TwoRowsWellFormed(h, long, iso);
    MapColumnRow(t, "Date/Time", ConvertCell, 0);
    MapColumnRow(t, "Date/Time", ConvertCell, 1);
    SameTailUpdate(long, iso, ConvertCell(long[0]));
  }

  lemma DatedHeaderFacts(h: seq<string>)
    requires DatedHeader(h)
    ensures "Date/Time" in h && FirstIndex(h, "Date/Time") == 0
  {
  }

  lemma TwoRowsWellFormed(h: seq<string>, x: Row, y: Row)
    requires NoDuplicates(h) && |x| == |h| && |y| == |h|
    ensures WellFormed(Table(h, [x, y]))
  {
  }

  /** Rows that agree after their first cell agree once that cell is set. */
  lemma SameTailUpdate(x: Row, y: Row, v: Cell)
    requires |x| == |y| > 0 && x[1..] == y[1..]
    ensures x[0 := v] == y[0 := v]
  {
    var a := x[0 := v];
    var b := y[0 := v];
    forall k | 0 <= k < |x|
      ensures a[k] == b[k]
    {
      if k > 0 {
        assert x[k] == x[1..][k - 1] && y[k] == y[1..][k - 1];
      }
    }
  }

  /** Distinct rows under the same header are both kept. */
  lemma TwinsCombine(h: seq<string>, x: Row, y: Row)
    requires DatedHeader(h) && |x| == |h| && |y| == |h| && x != y
    ensures WellFormed(Table(h, [x])) && WellFormed(Table(h, [y]))
    ensures Combine(Table(h, [x]), Table(h, [y])) == Table(h, [x, y])
    ensures Merge(Table(h, [x]), Table(h, [y])) == MapColumn(Table(h, [x, y]), "Date/Time", ConvertCell)
  {
    ConcatSameHeader(Table(h, [x]), Table(h, [y]));
    DedupOfDistinct([x, y]);
  }
}
