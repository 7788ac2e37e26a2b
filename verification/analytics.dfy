/** The dashboard's analysis helpers over plays: the time window, the top
    artists and songs with their chart labels, the weekday and hourly
    listening patterns, and the most active hour.

    After `process_data` a play's `Date/Time` is a pandas timestamp, kept
    here as nanoseconds since 1970-01-01 00:00 UTC. The canonical strings end
    in `Z`, so pandas parses them as UTC timestamps, and hour and weekday are
    the UTC wall-clock hour and day.
    Artist and song names may be missing (NaN). */
module Analytics {
  import opened Options
  import opened Seqs
  import opened Counting

  datatype Play = Play(time: int, artist: Option<string>, song: Option<string>)

  const NsPerHour: int := 3_600_000_000_000
  const NsPerDay: int := 24 * NsPerHour

  /** `.dt.hour`. pandas divides by flooring, which for a positive divisor
      is Dafny's division. */
  function HourOf(t: int): (h: int)
    ensures 0 <= h < 24
  {
    (t / NsPerHour) % 24
  }

  /** Days since 1970-01-01, rounded down. */
  function DayOf(t: int): int {
    t / NsPerDay
  }

  /** `.dt.day_name()` as a position in Monday..Sunday; 1970-01-01 was a
      Thursday. */
  function WeekdayOf(t: int): (w: int)
    ensures 0 <= w < 7
  {
    (DayOf(t) + 3) % 7
  }

  const WeekdayNames: seq<string> :=
    ["Monday", "Tuesday", "Wednesday", "Thursday", "Friday", "Saturday", "Sunday"]

  /** An instant is its day, plus its hour, plus what is left of the hour:
      the hour really is the hour of the day. */
  lemma HourOfDay(t: int)
    ensures 0 <= t - DayOf(t) * NsPerDay - HourOf(t) * NsPerHour < NsPerHour
  {
    var q := t / NsPerHour;
    var rest := t % NsPerHour;
    FloorOfFloor(t, NsPerHour, 24);
    assert q * NsPerHour == (q / 24) * NsPerDay + (q % 24) * NsPerHour by {
      assert q == (q / 24) * 24 + q % 24;
    }
  }

  /** Dividing in two steps is dividing by the product. */
  lemma FloorOfFloor(t: int, a: int, b: int)
    requires a > 0 && b > 0
    ensures (t / a) / b == t / (a * b)
  {
    var q := t / a;
    var r := t % a;
    var q2 := q / b;
    var r2 := q % b;
    assert t == q2 * (a * b) + (r2 * a + r) by {
      assert q * a == (q2 * b + r2) * a;
    }
    assert r2 * a <= (b - 1) * a by {
      MulLeft(r2, b - 1, a);
    }
    DivUnique(t, a * b, q2, r2 * a + r);
  }

  lemma MulLeft(x: int, y: int, a: int)
    requires x <= y && a > 0
    ensures x * a <= y * a
  {
    assert y * a - x * a == (y - x) * a;
    MulNonNegative(y - x, a);
  }

  lemma {:induction false} MulNonNegative(x: int, a: int)
    requires x >= 0 && a > 0
    ensures x * a >= 0
    decreases x
  {
    if x > 0 {
      MulNonNegative(x - 1, a);
      assert x * a == (x - 1) * a + a;
    }
  }

  /** Quotient and remainder are unique. */
  lemma DivUnique(t: int, d: int, q: int, r: int)
    requires d > 0 && t == q * d + r && 0 <= r < d
    ensures t / d == q
  {
    var q' := t / d;
    var r' := t % d;
    assert (q - q') * d == r' - r;
    if q' < q {
      MulLeft(1, q - q', d);
    } else if q' > q {
      MulLeft(1, q' - q, d);
    }
  }

  /** The epoch, 1970-01-01, falls on a Thursday: position 3 counting from
      Monday. */
  lemma WeekdayAnchor()
    ensures WeekdayOf(0) == 3 && WeekdayNames[WeekdayOf(0)] == "Thursday"
  {
  }

  /** The next day is the next weekday. */
  lemma WeekdayNextDay(t: int)
    ensures WeekdayOf(t + NsPerDay) == (WeekdayOf(t) + 1) % 7
  {
    DaysLater(t, 1);
    ModStep(DayOf(t) + 3);
  }

  /** A week later is the same weekday. */
  lemma WeekdayNextWeek(t: int)
    ensures WeekdayOf(t + 7 * NsPerDay) == WeekdayOf(t)
  {
    DaysLater(t, 7);
    assert (DayOf(t) + 7 + 3) % 7 == (DayOf(t) + 3) % 7;
  }

  /** `k` whole days later is `k` days further from the epoch. */
  lemma DaysLater(t: int, k: int)
    ensures DayOf(t + k * NsPerDay) == DayOf(t) + k
  {
    var q := t / NsPerDay;
    var r := t % NsPerDay;
    assert t + k * NsPerDay == (q + k) * NsPerDay + r;
    DivUnique(t + k * NsPerDay, NsPerDay, q + k, r);
  }

  lemma ModStep(x: int)
    ensures (x + 1) % 7 == (x % 7 + 1) % 7
  {
  }

  // ---------------------------------------------------------------------
  // The time window

  /** The latest play time, `df['Date/Time'].max()`. */
  function MaxTime(plays: seq<Play>): (m: int)
    requires |plays| > 0
    ensures forall i :: 0 <= i < |plays| ==> plays[i].time <= m
    ensures exists i :: 0 <= i < |plays| && plays[i].time == m
  {
    if |plays| == 1 then plays[0].time
    else
      var m := MaxTime(plays[1..]);
      assert forall i :: 1 <= i < |plays| ==> plays[i] == plays[1..][i - 1];
      if plays[0].time >= m then plays[0].time else m
  }

  /** The `days_filter` window: with no filter or a zero filter (Python
      treats both as false) every play is kept; otherwise exactly the plays
      no more than `days` days before the latest play, in their order. An
      empty table stays empty. A window of zero or more days always keeps
      the latest plays. */
  function Window(plays: seq<Play>, days: Option<int>): (r: seq<Play>)
    ensures days.None? || days.value == 0 ==> r == plays
    ensures days.Some? && days.value != 0 && |plays| > 0 ==>
              var cutoff := MaxTime(plays) - days.value * NsPerDay;
              && (forall i :: 0 <= i < |r| ==> r[i] in plays && r[i].time >= cutoff)
              && (forall i :: 0 <= i < |plays| && plays[i].time >= cutoff ==> plays[i] in r)
              && IsSubsequence(r, plays)
              && forall x :: multiset(r)[x] == if x.time >= cutoff then multiset(plays)[x] else 0
    ensures |plays| == 0 ==> r == []
    ensures days.None? || days.value >= 0 ==>
              forall i :: 0 <= i < |plays| && plays[i].time == MaxTime(plays) ==> plays[i] in r
  {
    if days.None? || days.value == 0 || |plays| == 0 then plays
    else
      var cutoff := MaxTime(plays) - days.value * NsPerDay;
      var r := Filter(plays, (p: Play) => p.time >= cutoff);
      SpanSign(days.value);
      LatestKept(plays, days.value * NsPerDay, cutoff, r);
      r
  }

  lemma SpanSign(days: int)
    ensures days >= 0 ==> days * NsPerDay >= 0
  {
    if days > 0 {
      MulNonNegative(days, NsPerDay);
    }
  }

  lemma LatestKept(plays: seq<Play>, span: int, cutoff: int, r: seq<Play>)
    requires |plays| > 0 && cutoff == MaxTime(plays) - span
    requires forall i :: 0 <= i < |plays| && plays[i].time >= cutoff ==> plays[i] in r
    ensures span >= 0 ==> forall i :: 0 <= i < |plays| && plays[i].time == MaxTime(plays) ==> plays[i] in r
  {
  }

  /** Widening the window never loses a play. */
  lemma WindowMonotone(plays: seq<Play>, narrow: int, wide: int, i: int)
    requires 0 < narrow <= wide && 0 <= i < |plays|
    requires plays[i] in Window(plays, Some(narrow))
    ensures plays[i] in Window(plays, Some(wide))
  {
    var m := MaxTime(plays);
    var w := Window(plays, Some(narrow));
    var j :| 0 <= j < |w| && w[j] == plays[i];
    assert plays[i].time >= m - narrow * NsPerDay;
    MulLeft(narrow, wide, NsPerDay);
    assert plays[i].time >= m - wide * NsPerDay;
  }

  // ---------------------------------------------------------------------
  // Top artists and songs

  /** The present values of a column: `value_counts` and `groupby` skip
      NaN. Each value occurs as often as the present cell holding it. */
  function Present<T(!new)>(cells: seq<Option<T>>): (r: seq<T>)
    ensures |r| <= |cells|
    ensures forall x :: multiset(r)[x] == multiset(cells)[Some(x)]
  {
    if |cells| == 0 then []
    else
      var init := cells[..|cells| - 1];
      var last := cells[|cells| - 1];
      assert cells == init + [last];
      if last.Some? then Present(init) + [last.value] else Present(init)
  }

  function ArtistCells(plays: seq<Play>): (r: seq<Option<string>>)
    ensures |r| == |plays| && forall i :: 0 <= i < |plays| ==> r[i] == plays[i].artist
  {
    seq(|plays|, i requires 0 <= i < |plays| => plays[i].artist)
  }

  /** The `["Song Name", "Artist"]` group key of a play, missing when either
      part is missing. */
  function SongKey(p: Play): Option<(string, string)> {
    if p.song.Some? && p.artist.Some? then Some((p.song.value, p.artist.value)) else None
  }

  function SongCells(plays: seq<Play>): (r: seq<Option<(string, string)>>)
    ensures |r| == |plays| && forall i :: 0 <= i < |plays| ==> r[i] == SongKey(plays[i])
  {
    seq(|plays|, i requires 0 <= i < |plays| => SongKey(plays[i]))
  }

  /** The `n` most frequent present values of a column, with their counts:
      at most `n` of them, each counted exactly, most frequent first, and a
      value left out occurs no more often than the last one listed. */
  function TopPresent<T(==,!new)>(cells: seq<Option<T>>, n: nat): (r: seq<(T, nat)>)
    ensures |r| <= n && CountsDescending(r) && NoDuplicates(Keys(r))
    ensures forall i :: 0 <= i < |r| ==> r[i].1 == multiset(cells)[Some(r[i].0)] && r[i].1 > 0
    ensures forall i :: 0 <= i < |cells| && cells[i].Some? && cells[i].value !in Keys(r) ==>
              |r| == n && (n == 0 || multiset(cells)[cells[i]] <= r[n - 1].1)
  {
    var keys := Present(cells);
    var r := TopCounts(keys, n);
    TopPresentFacts(cells, n, keys, r);
    r
  }

  lemma TopPresentFacts<T(!new)>(cells: seq<Option<T>>, n: nat, keys: seq<T>, r: seq<(T, nat)>)
    requires forall x :: multiset(keys)[x] == multiset(cells)[Some(x)]
    requires forall i :: 0 <= i < |r| ==> r[i].0 in keys && r[i].1 == multiset(keys)[r[i].0]
    requires forall k :: 0 <= k < |keys| && keys[k] !in Keys(r) ==>
               |r| == n && (n == 0 || multiset(keys)[keys[k]] <= r[n - 1].1)
    ensures forall i :: 0 <= i < |r| ==> r[i].1 == multiset(cells)[Some(r[i].0)] && r[i].1 > 0
    ensures forall i :: 0 <= i < |cells| && cells[i].Some? && cells[i].value !in Keys(r) ==>
              |r| == n && (n == 0 || multiset(cells)[cells[i]] <= r[n - 1].1)
  {
    forall i | 0 <= i < |r|
      ensures r[i].1 > 0
    {
      assert r[i].0 in multiset(keys);
    }
    forall i | 0 <= i < |cells| && cells[i].Some? && cells[i].value !in Keys(r)
      ensures |r| == n && (n == 0 || multiset(cells)[cells[i]] <= r[n - 1].1)
    {
      var x := cells[i].value;
      assert cells[i] in multiset(cells);
      assert x in multiset(keys);
      var k :| 0 <= k < |keys| && keys[k] == x;
    }
  }

  /** The top-ten artist chart of `create_top_content_charts`: at most ten
      artists of the window, each once with its exact number of plays there,
      most played first; an artist of the window left out of a full chart
      has no more plays than the tenth. */
  function TopArtists(plays: seq<Play>, days: Option<int>): (r: seq<(string, nat)>)
    ensures |r| <= 10 && CountsDescending(r) && NoDuplicates(Keys(r))
    ensures var w := Window(plays, days);
            forall i :: 0 <= i < |r| ==> r[i].1 == multiset(ArtistCells(w))[Some(r[i].0)] && r[i].1 > 0
    ensures var w := Window(plays, days);
            forall i :: 0 <= i < |w| && w[i].artist.Some? && w[i].artist.value !in Keys(r) ==>
              |r| == 10 && multiset(ArtistCells(w))[w[i].artist] <= r[9].1
  {
    var w := Window(plays, days);
    var r := TopPresent(ArtistCells(w), 10);
    ArtistChartFacts(w, r);
    r
  }

  lemma ArtistChartFacts(w: seq<Play>, r: seq<(string, nat)>)
    requires r == TopPresent(ArtistCells(w), 10)
    ensures forall i :: 0 <= i < |w| && w[i].artist.Some? && w[i].artist.value !in Keys(r) ==>
              |r| == 10 && multiset(ArtistCells(w))[w[i].artist] <= r[9].1
  {
    var cells := ArtistCells(w);
    forall i | 0 <= i < |w| && w[i].artist.Some? && w[i].artist.value !in Keys(r)
      ensures |r| == 10 && multiset(cells)[w[i].artist] <= r[9].1
    {
      assert cells[i] == w[i].artist;
    }
  }

  /** The top-ten song chart: the window's plays grouped by song and artist,
      with the same guarantees as the artist chart. */
  function TopSongs(plays: seq<Play>, days: Option<int>): (r: seq<((string, string), nat)>)
    ensures |r| <= 10 && CountsDescending(r) && NoDuplicates(Keys(r))
    ensures var w := Window(plays, days);
            forall i :: 0 <= i < |r| ==> r[i].1 == multiset(SongCells(w))[Some(r[i].0)] && r[i].1 > 0
    ensures var w := Window(plays, days);
            forall i :: 0 <= i < |w| && SongKey(w[i]).Some? && SongKey(w[i]).value !in Keys(r) ==>
              |r| == 10 && multiset(SongCells(w))[SongKey(w[i])] <= r[9].1
  {
    var w := Window(plays, days);
    var r := TopPresent(SongCells(w), 10);
    SongChartFacts(w, r);
    r
  }

  lemma SongChartFacts(w: seq<Play>, r: seq<((string, string), nat)>)
    requires r == TopPresent(SongCells(w), 10)
    ensures forall i :: 0 <= i < |w| && SongKey(w[i]).Some? && SongKey(w[i]).value !in Keys(r) ==>
              |r| == 10 && multiset(SongCells(w))[SongKey(w[i])] <= r[9].1
  {
    var cells := SongCells(w);
    forall i | 0 <= i < |w| && SongKey(w[i]).Some? && SongKey(w[i]).value !in Keys(r)
      ensures |r| == 10 && multiset(cells)[SongKey(w[i])] <= r[9].1
    {
      assert cells[i] == SongKey(w[i]);
    }
  }

  /** The chart label `f"{song} - {artist}"`. */
  function SongLabel(key: (string, string)): string {
    key.0 + " - " + key.1
  }

  const LabelWidth := 40

  /** A long label keeps its first forty characters followed by "...";
      a label of at most forty characters is shown as it is. */
  function Truncate(text: string): (r: string)
    ensures |r| <= LabelWidth + 3
    ensures |text| <= LabelWidth ==> r == text
    ensures |text| > LabelWidth ==> |r| == LabelWidth + 3 && r[..LabelWidth] == text[..LabelWidth] && r[LabelWidth..] == "..."
  {
    if |text| > LabelWidth then text[..LabelWidth] + "..." else text
  }

  /** Truncating a truncated text changes nothing. */
  lemma TruncateIdempotent(text: string)
    ensures Truncate(Truncate(text)) == Truncate(text)
  {
    if |text| > LabelWidth {
      var r := Truncate(text);
      assert r[..LabelWidth] + "..." == r;
    }
  }

  /** The labels of the song chart, in chart order. */
  function SongLabels(plays: seq<Play>, days: Option<int>): (r: seq<string>)
    ensures |r| == |TopSongs(plays, days)|
    ensures forall i :: 0 <= i < |r| ==> |r[i]| <= LabelWidth + 3 && Truncate(r[i]) == r[i]
    ensures forall i :: 0 <= i < |r| ==>
              var full := SongLabel(TopSongs(plays, days)[i].0);
              r[i] == full || (|full| > LabelWidth && r[i] == full[..LabelWidth] + "...")
  {
    var top := TopSongs(plays, days);
    var r := seq(|top|, i requires 0 <= i < |top| => Truncate(SongLabel(top[i].0)));
    LabelsFacts(top, r);
    r
  }

  lemma LabelsFacts(top: seq<((string, string), nat)>, r: seq<string>)
    requires |r| == |top| && forall i :: 0 <= i < |r| ==> r[i] == Truncate(SongLabel(top[i].0))
    ensures forall i :: 0 <= i < |r| ==> |r[i]| <= LabelWidth + 3 && Truncate(r[i]) == r[i]
    ensures forall i :: 0 <= i < |r| ==>
              var full := SongLabel(top[i].0);
              r[i] == full || (|full| > LabelWidth && r[i] == full[..LabelWidth] + "...")
  {
    forall i | 0 <= i < |r|
      ensures Truncate(r[i]) == r[i]
    {
      TruncateIdempotent(SongLabel(top[i].0));
    }
  }

  // ---------------------------------------------------------------------
  // Listening patterns

  function PlayHour(p: Play): int {
    HourOf(p.time)
  }

  function PlayWeekday(p: Play): int {
    WeekdayOf(p.time)
  }

  /** The number of plays whose `f` is `v`. */
  function CountWhere(plays: seq<Play>, f: Play -> int, v: int): nat {
    if |plays| == 0 then 0
    else CountWhere(plays[..|plays| - 1], f, v) + (if f(plays[|plays| - 1]) == v then 1 else 0)
  }

  /** A count is zero exactly when no play has that value. */
  lemma {:induction false} CountZero(plays: seq<Play>, f: Play -> int, v: int)
    ensures CountWhere(plays, f, v) == 0 <==> forall i :: 0 <= i < |plays| ==> f(plays[i]) != v
  {
    if |plays| > 0 {
      var init := plays[..|plays| - 1];
      CountZero(init, f, v);
      assert forall i :: 0 <= i < |init| ==> init[i] == plays[i];
    }
  }

  /** Sum of the counts of the values `lo..hi-1`. */
  function SumCounts(plays: seq<Play>, f: Play -> int, lo: int, hi: int): nat
    decreases hi - lo
  {
    if lo >= hi then 0 else CountWhere(plays, f, lo) + SumCounts(plays, f, lo + 1, hi)
  }

  lemma {:induction false} SumCountsStep(plays: seq<Play>, f: Play -> int, lo: int, hi: int)
    requires |plays| > 0
    ensures SumCounts(plays, f, lo, hi) ==
            SumCounts(plays[..|plays| - 1], f, lo, hi) + (if lo <= f(plays[|plays| - 1]) < hi then 1 else 0)
    decreases hi - lo
  {
    if lo < hi {
      SumCountsStep(plays, f, lo + 1, hi);
    }
  }

  /** When `f` takes its values in `lo..hi-1`, the counts of those values
      add up to the number of plays. */
  lemma {:induction false} SumCountsTotal(plays: seq<Play>, f: Play -> int, lo: int, hi: int)
    requires forall i :: 0 <= i < |plays| ==> lo <= f(plays[i]) < hi
    ensures SumCounts(plays, f, lo, hi) == |plays|
  {
    if |plays| > 0 {
      var init := plays[..|plays| - 1];
      assert forall i :: 0 <= i < |init| ==> init[i] == plays[i];
      SumCountsTotal(init, f, lo, hi);
      SumCountsStep(plays, f, lo, hi);
      assert lo <= f(plays[|plays| - 1]) < hi;
    } else {
      SumCountsNone(plays, f, lo, hi);
    }
  }

  lemma {:induction false} SumCountsNone(plays: seq<Play>, f: Play -> int, lo: int, hi: int)
    requires |plays| == 0
    ensures SumCounts(plays, f, lo, hi) == 0
    decreases hi - lo
  {
    if lo < hi {
      SumCountsNone(plays, f, lo + 1, hi);
    }
  }

  /** `value_counts().reindex(weekday_order)`: the seven days in calendar
      order from Monday, each with its number of plays, missing (NaN) for a
      day without plays. */
  function WeekdayCounts(plays: seq<Play>): (r: seq<(string, Option<nat>)>)
    ensures |r| == 7
    ensures forall d :: 0 <= d < 7 ==> r[d].0 == WeekdayNames[d]
    ensures forall d :: 0 <= d < 7 ==>
              (r[d].1.None? <==> forall i :: 0 <= i < |plays| ==> PlayWeekday(plays[i]) != d)
    ensures forall d :: 0 <= d < 7 && r[d].1.Some? ==> r[d].1.value == CountWhere(plays, PlayWeekday, d)
  {
    var r := seq(7, d requires 0 <= d < 7 =>
                 (WeekdayNames[d],
                  if CountWhere(plays, PlayWeekday, d) == 0 then None
                  else Some(CountWhere(plays, PlayWeekday, d))));
    assert forall d :: 0 <= d < 7 ==>
             (r[d].1.None? <==> forall i :: 0 <= i < |plays| ==> PlayWeekday(plays[i]) != d) by {
      forall d | 0 <= d < 7
        ensures r[d].1.None? <==> forall i :: 0 <= i < |plays| ==> PlayWeekday(plays[i]) != d
      {
        CountZero(plays, PlayWeekday, d);
      }
    }
    r
  }

  function PresentCount(c: Option<nat>): nat {
    if c.Some? then c.value else 0
  }

  function WeekdaySum(r: seq<(string, Option<nat>)>, d: nat): nat
    requires d <= |r|
    decreases |r| - d
  {
    if d == |r| then 0 else PresentCount(r[d].1) + WeekdaySum(r, d + 1)
  }

  /** Every play is counted on exactly one weekday: the chart's bars add up
      to the number of plays. */
  lemma WeekdayCountsTotal(plays: seq<Play>)
    ensures WeekdaySum(WeekdayCounts(plays), 0) == |plays|
  {
    var r := WeekdayCounts(plays);
    SumCountsTotal(plays, PlayWeekday, 0, 7);
    WeekdaySumIsSumCounts(plays, r, 0);
  }

  lemma {:induction false} WeekdaySumIsSumCounts(plays: seq<Play>, r: seq<(string, Option<nat>)>, d: nat)
    requires r == WeekdayCounts(plays) && d <= 7
    ensures WeekdaySum(r, d) == SumCounts(plays, PlayWeekday, d, 7)
    decreases 7 - d
  {
    if d < 7 {
      WeekdaySumIsSumCounts(plays, r, d + 1);
    }
  }

  /** `value_counts().sort_index()` of the hours: the hours that have plays,
      in increasing order, each with its number of plays. */
  function HourlyCounts(plays: seq<Play>): (r: seq<(int, nat)>)
    ensures forall i, j :: 0 <= i < j < |r| ==> r[i].0 < r[j].0
    ensures forall i :: 0 <= i < |r| ==> 0 <= r[i].0 < 24 && r[i].1 == CountWhere(plays, PlayHour, r[i].0) && r[i].1 > 0
    ensures forall i :: 0 <= i < |plays| ==> PlayHour(plays[i]) in Keys(r)
  {
    var r := HourlyFrom(plays, 0);
    forall i | 0 <= i < |plays|
      ensures PlayHour(plays[i]) in Keys(r)
    {
      CountPositive(plays, PlayHour, i);
    }
    r
  }

  function HourlyFrom(plays: seq<Play>, h: nat): (r: seq<(int, nat)>)
    requires h <= 24
    ensures forall i, j :: 0 <= i < j < |r| ==> r[i].0 < r[j].0
    ensures forall i :: 0 <= i < |r| ==> h <= r[i].0 < 24 && r[i].1 == CountWhere(plays, PlayHour, r[i].0) && r[i].1 > 0
    ensures forall g :: h <= g < 24 && CountWhere(plays, PlayHour, g) > 0 ==> g in Keys(r)
    decreases 24 - h
  {
    if h == 24 then []
    else
      var rest := HourlyFrom(plays, h + 1);
      var c := CountWhere(plays, PlayHour, h);
      if c > 0 then
        HourlyCons(plays, h, rest);
        [(h as int, c)] + rest
      else rest
  }

  /** An hour with plays goes in front of the later hours. */
  lemma HourlyCons(plays: seq<Play>, h: nat, rest: seq<(int, nat)>)
    requires h < 24 && CountWhere(plays, PlayHour, h) > 0
    requires forall i, j :: 0 <= i < j < |rest| ==> rest[i].0 < rest[j].0
    requires forall i :: 0 <= i < |rest| ==> h + 1 <= rest[i].0 < 24
    requires forall g :: h + 1 <= g < 24 && CountWhere(plays, PlayHour, g) > 0 ==> g in Keys(rest)
    ensures var r := [(h as int, CountWhere(plays, PlayHour, h))] + rest;
            && (forall i, j :: 0 <= i < j < |r| ==> r[i].0 < r[j].0)
            && (forall g :: h <= g < 24 && CountWhere(plays, PlayHour, g) > 0 ==> g in Keys(r))
  {
    var r := [(h as int, CountWhere(plays, PlayHour, h))] + rest;
    assert Keys(r) == [h as int] + Keys(rest);
    forall i, j | 0 <= i < j < |r|
      ensures r[i].0 < r[j].0
    {
      assert r[j] == rest[j - 1];
      if i > 0 {
        assert r[i] == rest[i - 1];
      }
    }
  }

  /** A play counts towards its own value. */
  lemma {:induction false} CountPositive(plays: seq<Play>, f: Play -> int, i: int)
    requires 0 <= i < |plays|
    ensures CountWhere(plays, f, f(plays[i])) > 0
  {
    CountZero(plays, f, f(plays[i]));
  }

  /** `df_filtered['Date/Time'].dt.hour.mode().iloc[0]`, or 0 without plays:
      the earliest of the hours with the most plays. */
  method MostActiveHour(plays: seq<Play>) returns (h: int)
    ensures |plays| == 0 ==> h == 0
    ensures |plays| > 0 ==> 0 <= h < 24 && CountWhere(plays, PlayHour, h) > 0
    ensures |plays| > 0 ==> forall g :: 0 <= g < 24 ==> CountWhere(plays, PlayHour, g) <= CountWhere(plays, PlayHour, h)
    ensures |plays| > 0 ==> forall g :: 0 <= g < h ==> CountWhere(plays, PlayHour, g) < CountWhere(plays, PlayHour, h)
  {
    if |plays| == 0 {
      return 0;
    }
    var counts: seq<nat> := seq(24, _ => 0);
    var i := 0;
    while i < |plays|
      invariant 0 <= i <= |plays| && |counts| == 24
      invariant forall g :: 0 <= g < 24 ==> counts[g] == CountWhere(plays[..i], PlayHour, g)
    {
      var g := PlayHour(plays[i]);
      assert plays[..i + 1][..i] == plays[..i];
      counts := counts[g := counts[g] + 1];
      i := i + 1;
    }
    assert plays[..i] == plays;
    h := 0;
    var g := 1;
    while g < 24
      invariant 0 <= h < g <= 24
      invariant forall x :: 0 <= x < g ==> counts[x] <= counts[h]
      invariant forall x :: 0 <= x < h ==> counts[x] < counts[h]
    {
      if counts[g] > counts[h] {
        h := g;
      }
      g := g + 1;
    }
    CountPositive(plays, PlayHour, 0);
    assert counts[PlayHour(plays[0])] > 0;
  }
}
