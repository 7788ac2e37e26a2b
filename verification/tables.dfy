/** The slice of a pandas `DataFrame` the two scripts use: named columns,
    rows of optional text cells (`None` is NaN), column-aligned
    concatenation, dropping a column, applying a function to one column,
    keep-first duplicate removal and dropping all-empty rows. The row index
    is not modelled: both scripts either reset it or never read it. */
module Tables {
  import opened Options
  import opened Seqs

  type Cell = Option<string>
  type Row = seq<Cell>

  datatype Table = Table(header: seq<string>, rows: seq<Row>)

  /** Column names are distinct (`read_csv` renames repeats) and every row
      has one cell per column. */
  predicate WellFormed(t: Table) {
    && NoDuplicates(t.header)
    && forall i :: 0 <= i < |t.rows| ==> |t.rows[i]| == |t.header|
  }

  /** The cell of `row` under column `name`; a column the header lacks reads
      as missing, which is what column alignment fills in. */
  function At(header: seq<string>, row: Row, name: string): Cell
    requires |row| == |header|
  {
    if name in header then row[FirstIndex(header, name)] else None
  }

  /** `row` rearranged for the header `target`: each target column takes the
      cell `row` has under that name, or NaN. */
  function Realign(header: seq<string>, row: Row, target: seq<string>): (r: Row)
    requires |row| == |header|
    ensures |r| == |target|
    ensures forall j :: 0 <= j < |target| ==> r[j] == At(header, row, target[j])
  {
    seq(|target|, j requires 0 <= j < |target| => At(header, row, target[j]))
  }

  /** Realigning never changes what a row holds under a name of the target
      header, and a name outside both headers reads as missing. */
  lemma RealignAt(header: seq<string>, row: Row, target: seq<string>, name: string)
    requires |row| == |header|
    requires forall c :: c in header ==> c in target
    ensures At(target, Realign(header, row, target), name) == At(header, row, name)
  {
    if name in target {
      var j := FirstIndex(target, name);
      assert Realign(header, row, target)[j] == At(header, row, name);
    }
  }

  /** Realigning to the row's own header is the identity. */
  lemma RealignSame(header: seq<string>, row: Row)
    requires |row| == |header| && NoDuplicates(header)
    ensures Realign(header, row, header) == row
  {
    forall j | 0 <= j < |header|
      ensures Realign(header, row, header)[j] == row[j]
    {
      FirstIndexDistinct(header, j);
    }
  }

  lemma FirstIndexDistinct<T>(s: seq<T>, j: int)
    requires NoDuplicates(s) && 0 <= j < |s|
    ensures FirstIndex(s, s[j]) == j
  {
  }

  function Remove<T>(s: seq<T>, k: nat): (r: seq<T>)
    requires k < |s|
    ensures |r| == |s| - 1
  {
    s[..k] + s[k + 1..]
  }

  /** `df.drop(columns=[name])` when the column exists, the table unchanged
      when it does not (`errors='ignore'`, or the explicit membership test of
      the dashboard). */
  function DropColumn(t: Table, name: string): (r: Table)
    requires WellFormed(t)
    ensures WellFormed(r)
    ensures name !in r.header
    ensures name !in t.header ==> r == t
    ensures forall c :: c in r.header <==> c in t.header && c != name
    ensures |r.rows| == |t.rows|
    ensures forall i, c :: 0 <= i < |r.rows| && c != name ==>
              At(r.header, r.rows[i], c) == At(t.header, t.rows[i], c)
  {
    if name !in t.header then t
    else
      var k := FirstIndex(t.header, name);
      var h := Remove(t.header, k);
      var rows := seq(|t.rows|, i requires 0 <= i < |t.rows| => Remove(t.rows[i], k));
      DropColumnFacts(t, name, k, h, rows);
      Table(h, rows)
  }

  lemma DropColumnFacts(t: Table, name: string, k: nat, h: seq<string>, rows: seq<Row>)
    requires WellFormed(t) && name in t.header && k == FirstIndex(t.header, name)
    requires h == Remove(t.header, k)
    requires |rows| == |t.rows| && forall i :: 0 <= i < |rows| ==> rows[i] == Remove(t.rows[i], k)
    ensures WellFormed(Table(h, rows))
    ensures name !in h
    ensures forall c :: c in h <==> c in t.header && c != name
    ensures forall i, c :: 0 <= i < |rows| && c != name ==> At(h, rows[i], c) == At(t.header, t.rows[i], c)
  {
    FirstIndexDistinct(t.header, k);
    RemoveMembership(t.header, name, k, h);
    RemoveDistinct(t.header, k, h);
    forall i | 0 <= i < |rows|
      ensures |rows[i]| == |h|
    {
    }
    forall i, c | 0 <= i < |rows| && c != name
      ensures At(h, rows[i], c) == At(t.header, t.rows[i], c)
    {
      RemoveAt(t.header, name, k, h, t.rows[i], rows[i], c);
    }
  }

  lemma RemoveMembership(header: seq<string>, name: string, k: nat, h: seq<string>)
    requires NoDuplicates(header) && name in header && k == FirstIndex(header, name)
    requires header[k] == name
    requires h == Remove(header, k)
    ensures forall c :: c in h <==> c in header && c != name
  {
    forall c
      ensures c in h <==> c in header && c != name
    {
      if c in header && c != name {
        var j := FirstIndex(header, c);
        if j < k { assert h[j] == c; } else { assert j != k; assert h[j - 1] == c; }
      }
    }
  }

  lemma RemoveDistinct(header: seq<string>, k: nat, h: seq<string>)
    requires NoDuplicates(header) && k < |header| && h == Remove(header, k)
    ensures NoDuplicates(h)
  {
    forall a, b | 0 <= a < b < |h|
      ensures h[a] != h[b]
    {
      var a' := if a < k then a else a + 1;
      var b' := if b < k then b else b + 1;
      assert h[a] == header[a'] && h[b] == header[b'];
    }
  }

  lemma RemoveAt(header: seq<string>, name: string, k: nat, h: seq<string>, row: Row, r: Row, c: string)
    requires NoDuplicates(header) && name in header && k == FirstIndex(header, name) && header[k] == name
    requires h == Remove(header, k) && NoDuplicates(h)
    requires |row| == |header| && r == Remove(row, k) && |r| == |h|
    requires c != name
    ensures At(h, r, c) == At(header, row, c)
  {
    if c in h {
      var j := FirstIndex(h, c);
      var j' := if j < k then j else j + 1;
      assert header[j'] == c;
      FirstIndexDistinct(header, j');
      FirstIndexDistinct(h, j);
    }
  }

  /** The column names of `b` that `a` lacks, in `b`'s order. */
  function NewColumns(a: seq<string>, b: seq<string>): (r: seq<string>)
    ensures forall c :: c in r <==> c in b && c !in a
    ensures NoDuplicates(b) ==> NoDuplicates(r)
    ensures (forall i :: 0 <= i < |b| ==> b[i] in a) ==> r == []
  {
    if |b| == 0 then []
    else
      var rest := NewColumns(a, b[1..]);
      assert forall c :: c in b <==> c == b[0] || c in b[1..];
      if b[0] in a then rest else [b[0]] + rest
  }

  /** `pd.concat([a, b])`: the header is `a`'s columns followed by the
      columns only `b` has, the rows are `a`'s followed by `b`'s, and every
      row keeps its cells under their names, with NaN under the columns its
      own table lacked. */
  function Concat(a: Table, b: Table): (r: Table)
    requires WellFormed(a) && WellFormed(b)
    ensures WellFormed(r)
    ensures forall c :: c in r.header <==> c in a.header || c in b.header
    ensures |a.header| <= |r.header| && r.header[..|a.header|] == a.header
    ensures |r.rows| == |a.rows| + |b.rows|
    ensures forall i, c :: 0 <= i < |a.rows| ==> At(r.header, r.rows[i], c) == At(a.header, a.rows[i], c)
    ensures forall i, c :: 0 <= i < |b.rows| ==>
              At(r.header, r.rows[|a.rows| + i], c) == At(b.header, b.rows[i], c)
  {
    var h := a.header + NewColumns(a.header, b.header);
    var top := seq(|a.rows|, i requires 0 <= i < |a.rows| => Realign(a.header, a.rows[i], h));
    var bottom := seq(|b.rows|, i requires 0 <= i < |b.rows| => Realign(b.header, b.rows[i], h));
    ConcatFacts(a, b, h, top, bottom);
    Table(h, top + bottom)
  }

  lemma ConcatFacts(a: Table, b: Table, h: seq<string>, top: seq<Row>, bottom: seq<Row>)
    requires WellFormed(a) && WellFormed(b)
    requires h == a.header + NewColumns(a.header, b.header)
    requires |top| == |a.rows| && forall i :: 0 <= i < |top| ==> top[i] == Realign(a.header, a.rows[i], h)
    requires |bottom| == |b.rows| && forall i :: 0 <= i < |bottom| ==> bottom[i] == Realign(b.header, b.rows[i], h)
    ensures WellFormed(Table(h, top + bottom))
    ensures forall c :: c in h <==> c in a.header || c in b.header
    ensures forall i, c :: 0 <= i < |a.rows| ==> At(h, (top + bottom)[i], c) == At(a.header, a.rows[i], c)
    ensures forall i, c :: 0 <= i < |b.rows| ==> At(h, (top + bottom)[|a.rows| + i], c) == At(b.header, b.rows[i], c)
  {
    UnionHeader(a.header, b.header, h);
    StackedWidths(h, top, bottom);
    StackedTop(a, h, top, bottom);
    StackedBottom(b, h, top, bottom);
  }

  lemma StackedWidths(h: seq<string>, top: seq<Row>, bottom: seq<Row>)
    requires forall i :: 0 <= i < |top| ==> |top[i]| == |h|
    requires forall i :: 0 <= i < |bottom| ==> |bottom[i]| == |h|
    ensures forall i :: 0 <= i < |top + bottom| ==> |(top + bottom)[i]| == |h|
  {
  }

  lemma StackedTop(a: Table, h: seq<string>, top: seq<Row>, bottom: seq<Row>)
    requires WellFormed(a) && NoDuplicates(h)
    requires forall i :: 0 <= i < |top + bottom| ==> |(top + bottom)[i]| == |h|
    requires forall c :: c in a.header ==> c in h
    requires |top| == |a.rows| && forall i :: 0 <= i < |top| ==> top[i] == Realign(a.header, a.rows[i], h)
    ensures forall i, c :: 0 <= i < |a.rows| ==> At(h, (top + bottom)[i], c) == At(a.header, a.rows[i], c)
  {
    forall i, c | 0 <= i < |a.rows|
      ensures At(h, (top + bottom)[i], c) == At(a.header, a.rows[i], c)
    {
      assert (top + bottom)[i] == top[i];
      RealignAt(a.header, a.rows[i], h, c);
    }
  }

  lemma StackedBottom(b: Table, h: seq<string>, top: seq<Row>, bottom: seq<Row>)
    requires WellFormed(b) && NoDuplicates(h)
    requires forall i :: 0 <= i < |top + bottom| ==> |(top + bottom)[i]| == |h|
    requires forall c :: c in b.header ==> c in h
    requires |bottom| == |b.rows| && forall i :: 0 <= i < |bottom| ==> bottom[i] == Realign(b.header, b.rows[i], h)
    ensures forall i, c :: 0 <= i < |b.rows| ==> At(h, (top + bottom)[|top| + i], c) == At(b.header, b.rows[i], c)
  {
    forall i, c | 0 <= i < |b.rows|
      ensures At(h, (top + bottom)[|top| + i], c) == At(b.header, b.rows[i], c)
    {
      assert (top + bottom)[|top| + i] == bottom[i];
      RealignAt(b.header, b.rows[i], h, c);
    }
  }

  lemma UnionHeader(a: seq<string>, b: seq<string>, h: seq<string>)
    requires NoDuplicates(a) && NoDuplicates(b)
    requires h == a + NewColumns(a, b)
    ensures NoDuplicates(h)
    ensures forall c :: c in h <==> c in a || c in b
  {
    var n := NewColumns(a, b);
    forall c
      ensures c in h <==> c in a || c in b
    {
      assert c in h <==> c in a || c in n;
    }
    forall x, y | 0 <= x < y < |h|
      ensures h[x] != h[y]
    {
      if y >= |a| {
        assert h[y] == n[y - |a|];
        if x < |a| {
          assert h[x] in a;
        } else {
          assert h[x] == n[x - |a|];
        }
      }
    }
  }

  /** Tables with the same columns concatenate by plain row concatenation. */
  lemma ConcatSameHeader(a: Table, b: Table)
    requires WellFormed(a) && WellFormed(b) && a.header == b.header
    ensures Concat(a, b) == Table(a.header, a.rows + b.rows)
  {
    var r := Concat(a, b);
    assert NewColumns(a.header, b.header) == [];
    forall i | 0 <= i < |r.rows|
      ensures r.rows[i] == (a.rows + b.rows)[i]
    {
      if i < |a.rows| {
        RealignSame(a.header, a.rows[i]);
      } else {
        RealignSame(b.header, b.rows[i - |a.rows|]);
      }
    }
  }

  /** `df.drop_duplicates()`: keep the first of every group of equal rows. */
  function DropDuplicates(t: Table): (r: Table)
    requires WellFormed(t)
    ensures WellFormed(r) && r.header == t.header
    ensures NoDuplicates(r.rows)
    ensures forall i :: 0 <= i < |t.rows| ==> t.rows[i] in r.rows
    ensures forall i :: 0 <= i < |r.rows| ==> r.rows[i] in t.rows
  {
    Table(t.header, Dedup(t.rows))
  }

  predicate AllMissing(row: Row) {
    forall j :: 0 <= j < |row| ==> row[j].None?
  }

  /** `df.dropna(how="all")`: rows with no present cell are removed, the
      others kept in order. */
  function DropAllMissing(t: Table): (r: Table)
    requires WellFormed(t)
    ensures WellFormed(r) && r.header == t.header
    ensures forall i :: 0 <= i < |r.rows| ==> r.rows[i] in t.rows && !AllMissing(r.rows[i])
    ensures forall i :: 0 <= i < |t.rows| && !AllMissing(t.rows[i]) ==> t.rows[i] in r.rows
    ensures IsSubsequence(r.rows, t.rows)
    ensures forall x :: multiset(r.rows)[x] == if AllMissing(x) then 0 else multiset(t.rows)[x]
    ensures (forall i :: 0 <= i < |t.rows| ==> AllMissing(t.rows[i])) ==> r.rows == []
  {
    Table(t.header, Filter(t.rows, (row: Row) => !AllMissing(row)))
  }

  /** `df[name] = df[name].apply(f)`; `None` where pandas raises `KeyError`
      because the column does not exist. */
  function MapColumn(t: Table, name: string, f: Cell -> Cell): (r: Option<Table>)
    requires WellFormed(t)
    ensures r.Some? <==> name in t.header
    ensures r.Some? ==> WellFormed(r.value) && r.value.header == t.header && |r.value.rows| == |t.rows|
    ensures r.Some? ==> forall i, c :: 0 <= i < |t.rows| ==>
              At(t.header, r.value.rows[i], c) ==
              (if c == name then f(At(t.header, t.rows[i], c)) else At(t.header, t.rows[i], c))
  {
    if name !in t.header then None
    else
      var k := FirstIndex(t.header, name);
      var rows := seq(|t.rows|, i requires 0 <= i < |t.rows| => t.rows[i][k := f(t.rows[i][k])]);
      Some(Table(t.header, rows))
  }

  /** A row of the mapped table is the row with its one cell replaced. */
  lemma MapColumnRow(t: Table, name: string, f: Cell -> Cell, i: int)
    requires WellFormed(t) && name in t.header && 0 <= i < |t.rows|
    ensures var k := FirstIndex(t.header, name);
            MapColumn(t, name, f).value.rows[i] == t.rows[i][k := f(t.rows[i][k])]
  {
  }

  /** Two rows of one table are equal exactly when they agree under every
      column name: comparing rows is comparing records. */
  lemma RowsEqualIffSameCells(header: seq<string>, x: Row, y: Row)
    requires NoDuplicates(header) && |x| == |header| && |y| == |header|
    ensures x == y <==> forall c :: At(header, x, c) == At(header, y, c)
  {
    if forall c :: At(header, x, c) == At(header, y, c) {
      forall j | 0 <= j < |header|
        ensures x[j] == y[j]
      {
        FirstIndexDistinct(header, j);
        assert At(header, x, header[j]) == At(header, y, header[j]);
      }
    }
  }
}
