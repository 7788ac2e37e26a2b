# Spotify listening history: merge, normalise and analyse

This project models, in Dafny, the data path of a personal Spotify
listening-history tool. Two scripts feed a dashboard.

- `Pipeline.py` downloads the recent plays. It drops the rows with no value
  at all and normalises each `Date/Time` cell with `to_iso_format`. It then
  drops the `URI` column and merges the rows into its output file. The merge
  appends, removes exact duplicates and sorts latest first.
- `spotify_dashboard.py` does the dashboard's own update step. It drops
  `URI` from the recent plays and appends them to the archived history. It
  removes exact duplicates, and only then rewrites every `Date/Time` cell
  with `convert_to_iso_format`. Its analysis helpers then compute the
  following over the plays:
  - the `days_filter` window;
  - the top-ten artists and songs, with truncated song labels;
  - the hourly and weekday patterns;
  - the most active hour.

The two paths differ, and the model keeps both as written.

- The dashboard deduplicates before it normalises dates, so the same play
  written in two date formats survives twice. After conversion the two rows
  are equal (`DashboardMerge.FormatTwinsSurvive`).
- The dashboard turns a missing date into the text `"nan"`. It keeps an
  unparseable date as text.
- The pipeline turns both a missing date and an unparseable one into a
  missing value. Only the pipeline sorts.

## Modules

| file | module | what it holds |
|---|---|---|
| `options.dfy` | `Options` | `Option` with early return |
| `seqs.dfy` | `Seqs` | filtering, keep-first deduplication, distinctness, first occurrence |
| `text.dfy` | `Text` | characters, digit runs, zero padding, `strip`, `replace` with its split/join form, code-point order |
| `timestamps.dfy` | `Timestamps` | calendar dates and the canonical `YYYY-MM-DDTHH:MM:SSZ` form |
| `dashboard_dates.dfy` | `DashboardDates` | `convert_to_iso_format`, including a model of `strptime` for `"%B %d, %Y at %I:%M%p"` |
| `pipeline_dates.dfy` | `PipelineDates` | `to_iso_format`, with `pd.to_datetime` as a parameter |
| `tables.dfy` | `Tables` | pandas frames of optional text cells: `drop(columns=…)`, `concat`, `drop_duplicates`, `dropna(how="all")`, `apply` on one column |
| `row_sort.dfy` | `RowSort` | `sort_values(ascending=False)` on a text column, missing values last |
| `dashboard_merge.dfy` | `DashboardMerge` | the dashboard's update step |
| `pipeline_merge.dfy` | `PipelineMerge` | the pipeline's normalise-and-merge |
| `counting.dfy` | `Counting` | `value_counts().head(n)` |
| `analytics.dfy` | `Analytics` | the window filter, the charts' data and the most active hour |

A table is a header of distinct column names plus rows of cells. A cell is
`Option<string>`, and `None` stands for pandas' NaN. `concat` aligns columns
by name: the left table's columns come first, then the right table's new
ones, and a cell a table lacks is missing. After `process_data` parses the
dates, a play's time is an integer count of nanoseconds since 1970-01-01.
Canonical dates end in `Z`, so pandas reads them as
UTC timestamps; hours and weekdays are the UTC ones, read off that count
with floor division.

## Model

| member | source | states |
|---|---|---|
| Text.Strip | spotify_dashboard.py:251 | the result is a contiguous piece of the input, with every leading and trailing quote removed and nothing else |
| Text.StripIdempotent | spotify_dashboard.py:251 | stripping twice is stripping once |
| Text.ReplaceAll | Pipeline.py:11 | a string without the pattern is returned unchanged |
| Text.ReplaceIsJoinOfSplit | Pipeline.py:11 | replacing every occurrence equals splitting at the pattern and joining with the replacement |
| Text.SplitJoin | Pipeline.py:11 | splitting at a pattern and joining with the same pattern gives the input back |
| Text.SplitPiecesAvoidPattern | Pipeline.py:11 | no piece of a split contains the pattern: each non-overlapping occurrence, found from the left, is replaced, though the result can still contain the pattern (`" at at "` becomes `" at "`) |
| Text.LexTotal | Pipeline.py:38 | Python's string order compares any two strings |
| Text.LexTransitive | Pipeline.py:38 | Python's string order is transitive |
| Text.Pad2 | spotify_dashboard.py:259 | `%d`, `%m`, `%H`, `%M`, `%S` render two digits that read back as the number |
| Text.Pad4 | spotify_dashboard.py:259 | `%Y` renders four digits that read back as the year |
| Timestamps.FormatIso | Pipeline.py:15 | `strftime("%Y-%m-%dT%H:%M:%SZ")` yields a canonical 20-character timestamp with a `T` that ends in `Z` |
| Timestamps.ParseFormatIso | Pipeline.py:15 | reading a formatted timestamp gives the same date and time back |
| Timestamps.FormatParseIso | Pipeline.py:15 | a string that reads as a timestamp is exactly the formatting of what it reads as |
| DashboardDates.ConvertToIso | spotify_dashboard.py:250-262 | the result is the quote-stripped input or a canonical timestamp with seconds `00`, and never begins or ends with a quote |
| DashboardDates.ConvertParsed | spotify_dashboard.py:250-259 | whenever the quote-stripped text contains `" at "` and `strptime` reads a date from it, the result is that date's canonical form |
| DashboardDates.ConvertStripsQuotesFirst | spotify_dashboard.py:251 | converting an input is converting its quote-stripped form |
| DashboardDates.ConvertPassesIsoLookalikes | spotify_dashboard.py:253-254 | a stripped text containing `T` and ending in `Z` comes back unchanged, date or not |
| DashboardDates.ConvertOutsideLayout | spotify_dashboard.py:256-262 | a quote-stripped text that is not a real date and time in the long form's layout comes back as it is |
| DashboardDates.ConvertKeepsUnparsed | spotify_dashboard.py:256-262 | without `" at "`, or when `strptime` fails, the result is the quote-stripped input |
| DashboardDates.ConvertLongForm | spotify_dashboard.py:256-259 | every date and time at a whole minute, written in the long form, converts to its canonical timestamp (12 AM is hour 0, 12 PM is hour 12) |
| DashboardDates.ParseRenderLongForm | spotify_dashboard.py:258 | the `strptime` model reads back every long-form rendering of a date and time at a whole minute |
| DashboardDates.To24 | spotify_dashboard.py:258 | `%I` with `%p` gives an hour in 0..23 that is afternoon exactly for PM and shows the same 12-hour clock value |
| DashboardDates.ParseLongForm | spotify_dashboard.py:258 | a parsed long-form date has zero seconds |
| DashboardDates.ParseAssembled | spotify_dashboard.py:258 | for every spelling built from a month word, blanks, a one- or two-digit day, a four-digit year, an `at` word, a one- or two-digit hour and minute and a rest not starting with a digit, `strptime` yields a date exactly when the month word is a month name in any case, the `at` word is `at` in any case, the rest is `AM` or `PM` in any case, the hour is 1..12 and the fields form a real date and time; otherwise it raises `ValueError` |
| DashboardDates.ParsedIsLongFormText | spotify_dashboard.py:258 | `strptime` accepts a text exactly when it is a spelling in the format's layout that names a real date and time, and it then reads the date and time those pieces name |
| DashboardDates.ParsedEndsInM | spotify_dashboard.py:258 | every text the format accepts ends in the `m` of `AM` or `PM`, so it never ends in `Z` |
| DashboardDates.Meridiem | spotify_dashboard.py:258 | `%p` accepts only a two-letter `AM` or `PM` word, in any case |
| DashboardDates.DatePart | spotify_dashboard.py:258 | `%B %d, %Y` yields month 1..12, day 1..31 and year 0..9999 |
| DashboardDates.TimePart | spotify_dashboard.py:258 | `%I:%M%p` yields hour 0..23 and minute 0..59 |
| DashboardDates.ConvertExample | spotify_dashboard.py:256-259 | `"July 6, 2025 at 2:30PM"` converts to `"2025-07-06T14:30:00Z"` |
| DashboardDates.ConvertAssembled | spotify_dashboard.py:256-259 | every such spelling with single spaces around a lower-case `at` that reads as a date converts to that date's canonical form |
| DashboardDates.ConvertPaddedExample | spotify_dashboard.py:256-259 | the zero-padded, lower-case `"july 06, 2025 at 02:30pm"` converts to `"2025-07-06T14:30:00Z"` |
| DashboardDates.ConvertIdempotent | spotify_dashboard.py:250-262 | converting twice is converting once |
| DashboardDates.ConvertKeepsCanonical | spotify_dashboard.py:253-254 | a canonical timestamp is left unchanged |
| DashboardDates.ConvertCell | spotify_dashboard.py:264 | every converted cell is present: a missing cell becomes the text `nan`, and a present one becomes the converter's result on its text |
| DashboardDates.ConvertCellIdempotent | spotify_dashboard.py:264 | converting a cell twice is converting it once |
| PipelineDates.ToIsoFormat | Pipeline.py:7-17 | a result exists exactly when the value is present and the parser accepts the cleaned text; it is then canonical (length 20, `T` at 10, `Z` at 19) and reads back as what the parser returned |
| PipelineDates.CleanIsSplitJoin | Pipeline.py:11 | the cleaning joins the pieces between occurrences of `" at "` with single spaces, and those pieces rebuild the input |
| PipelineDates.NoSpaceNoAt | Pipeline.py:11 | a text without spaces has no `" at "` to replace |
| PipelineDates.ToIsoFormatIdempotent | Pipeline.py:7-17 | when the parser reads back the canonical form of every date it returns, normalising twice is normalising once |
| PipelineDates.ToIsoFormatKeepsCanonical | Pipeline.py:7-17 | when the parser reads back every canonical timestamp within pandas' `Timestamp` range (years 1678 to 2261 in full), a canonical timestamp in that range is kept as it is |
| PipelineDates.ToIsoFormatDropsOutOfRange | Pipeline.py:12-14 | when the parser returns only years 1677 to 2262 and never misreads a canonical text, a canonical timestamp outside those years becomes missing |
| Seqs.Filter | spotify_dashboard.py:138 | the kept elements are exactly those satisfying the test, each with its full multiplicity, in their original order |
| Seqs.Dedup | spotify_dashboard.py:246 | no duplicates, and the same elements as the input |
| Seqs.DedupKeepsFirstOccurrenceOrder | spotify_dashboard.py:246 | survivors appear in the order of their first occurrence |
| Seqs.DedupPrefix | spotify_dashboard.py:246 | deduplicating `s + t` begins with deduplicating `s` |
| Seqs.DedupOfDistinct | spotify_dashboard.py:246 | a sequence without duplicates is left unchanged |
| Seqs.DedupSelfConcat | spotify_dashboard.py:246 | deduplicating a sequence appended to itself is deduplicating it once |
| Tables.DropColumn | spotify_dashboard.py:239-240 | the column is gone, every other column and every row keeps its cells, and dropping an absent column changes nothing |
| Tables.Concat | spotify_dashboard.py:245 | the header is the union, led by the left header; the rows are the left rows then the right rows, each keeping its cells by name |
| Tables.ConcatSameHeader | Pipeline.py:36 | two tables with the same header concatenate to plain row concatenation |
| Tables.DropDuplicates | spotify_dashboard.py:246 | the same header and the same rows, without duplicates |
| Tables.DropAllMissing | Pipeline.py:25 | exactly the rows with at least one value, each as often as in the input, in their order |
| Tables.MapColumn | Pipeline.py:26 | present exactly when the column exists; that column's cells are mapped and every other cell is unchanged |
| Tables.RowsEqualIffSameCells | spotify_dashboard.py:246 | two rows under one header are equal exactly when every column reads the same |
| RowSort.SortDesc | Pipeline.py:38 | a permutation of the rows, sorted latest first with missing keys last |
| RowSort.BeforeTotal | Pipeline.py:38 | any two keys can be ordered |
| RowSort.BeforeTransitive | Pipeline.py:38 | the descending order with missing keys last is transitive |
| DashboardMerge.Combine | spotify_dashboard.py:238-246 | no duplicate rows and at most the sum of the input rows; every stacked row is kept and nothing else; `URI` survives only from the history |
| DashboardMerge.CombineKeepsHistory | spotify_dashboard.py:244-246 | every history row is in the result with all its cells |
| DashboardMerge.CombineKeepsRecent | spotify_dashboard.py:238-246 | every recent row is in the result with all its cells except `URI`, which reads as missing |
| DashboardMerge.CombineOrder | spotify_dashboard.py:245-246 | survivors keep first-occurrence order, and the deduplicated history comes first |
| DashboardMerge.CombineWithItself | spotify_dashboard.py:245-246 | combining a history without `URI` with itself gives the deduplicated history |
| DashboardMerge.Merge | spotify_dashboard.py:264 | fails exactly when neither table has `Date/Time`; otherwise one row per combined row; each date is the converted date of the same combined row, present and either quote-stripped text or a canonical timestamp with seconds `00`, and every other cell is kept |
| DashboardMerge.MergeConversionSettles | spotify_dashboard.py:264 | converting the merged dates again changes nothing |
| DashboardMerge.ConvertedTwinsEqual | spotify_dashboard.py:246-264 | rows that differ only in dates that convert alike are equal after conversion |
| DashboardMerge.FormatTwinsSurvive | spotify_dashboard.py:246-264 | for any header with `Date/Time` first and no `URI`, a play in long form in the history and the same play in canonical form in the recent plays are both kept, and the two rows end up equal |
| PipelineMerge.Normalise | Pipeline.py:25-29 | fails exactly when `Date/Time` is missing; otherwise the all-missing rows are gone, every date is normalised, `URI` is gone and the other cells are kept |
| PipelineMerge.Stacked | Pipeline.py:36 | no duplicate rows and at most the sum of the input rows; every earlier and every new row is kept and nothing else is; the header is the union of both headers |
| PipelineMerge.SortByDate | Pipeline.py:38 | the same header and the same multiset of rows, sorted latest first with missing dates last |
| PipelineMerge.Merge | Pipeline.py:32-43 | without an earlier file, exactly the normalised rows; with one, a duplicate-free permutation of the deduplicated stack, sorted by date |
| PipelineMerge.MergeKeepsEveryRow | Pipeline.py:36-38 | every earlier and every new row is written exactly once, and nothing else |
| PipelineMerge.ConcatKeepsDates | Pipeline.py:36 | stacking keeps every date canonical or missing |
| PipelineMerge.MergeKeepsDatesCanonical | Pipeline.py:32-43 | if the earlier output's dates are canonical or missing, so are the dates written |
| PipelineMerge.MergeNothingNew | Pipeline.py:33-38 | for an earlier output without duplicate rows, and a download with the same header, no `URI` column and no row holding a value, the earlier rows are written again, as a multiset |
| Counting.Tally | spotify_dashboard.py:143 | each distinct value once, with its exact number of occurrences, and every value is listed |
| Counting.SortByCount | spotify_dashboard.py:156 | a permutation of the entries in non-increasing count order |
| Counting.TopCounts | spotify_dashboard.py:143 | at most `n` entries with exact counts, most frequent first, each value once; a value left out means the list is full and the value occurs no more often than the last entry |
| Analytics.HourOf | spotify_dashboard.py:182 | the hour is in 0..23 |
| Analytics.HourOfDay | spotify_dashboard.py:182 | an instant lies within its hour of its day |
| Analytics.WeekdayOf | spotify_dashboard.py:183 | the weekday is in 0..6 |
| Analytics.WeekdayAnchor | spotify_dashboard.py:183 | the epoch, 1970-01-01, is a Thursday, position 3 from Monday |
| Analytics.WeekdayNextDay | spotify_dashboard.py:183 | a day later is the next weekday |
| Analytics.WeekdayNextWeek | spotify_dashboard.py:183 | a week later is the same weekday |
| Analytics.DaysLater | spotify_dashboard.py:183 | whole days later moves the day count by exactly that many days |
| Analytics.MaxTime | spotify_dashboard.py:137 | the latest play time bounds every play and belongs to one |
| Analytics.Window | spotify_dashboard.py:136-140 | no filter or zero keeps every play; otherwise exactly the plays at or after the cutoff, each as often as in the input, in order; the latest plays are kept for a non-negative window |
| Analytics.WindowMonotone | spotify_dashboard.py:136-138 | a wider window keeps every play a narrower one keeps |
| Analytics.Present | spotify_dashboard.py:143 | missing values are skipped, and each present value keeps its number of occurrences |
| Analytics.TopPresent | spotify_dashboard.py:156 | the top-`n` chart of a column's present values: exact counts, most frequent first, each value once, and a value left out occurs no more often than the last entry |
| Analytics.TopArtists | spotify_dashboard.py:136-143 | at most ten artists of the window, each once with its exact number of plays there, most played first; an artist of the window left out of the chart means the chart is full and that artist has no more plays than the tenth |
| Analytics.TopSongs | spotify_dashboard.py:136-156 | the same for the window's plays grouped by song and artist, where a play missing either part is not counted |
| Analytics.Truncate | spotify_dashboard.py:161 | labels of at most 40 characters are unchanged; longer ones become their first 40 characters followed by `...` |
| Analytics.TruncateIdempotent | spotify_dashboard.py:161 | truncating a truncated label changes nothing |
| Analytics.SongLabels | spotify_dashboard.py:157-161 | one label per chart entry, each the full `song - artist` text or its first 40 characters followed by `...` |
| Analytics.CountZero | spotify_dashboard.py:199 | a count is zero exactly when no play has that value |
| Analytics.WeekdayCounts | spotify_dashboard.py:198-199 | seven entries, Monday to Sunday; an entry is missing exactly when no play falls on that day, and otherwise holds the day's exact count |
| Analytics.WeekdayCountsTotal | spotify_dashboard.py:198-199 | the weekday counts add up to the number of plays |
| Analytics.SumCountsTotal | spotify_dashboard.py:186 | when every play's value is in a range, the counts over the range add up to the number of plays |
| Analytics.HourlyCounts | spotify_dashboard.py:186 | hours in increasing order, each in 0..23 with its exact positive count, and every play's hour is listed |
| Analytics.MostActiveHour | spotify_dashboard.py:320 | 0 without plays; otherwise an hour with plays, with no hour busier, and the earliest of the busiest hours |

## Behaviour worth knowing

- The pipeline sorts with pandas' default sort, which is not stable
  (`Pipeline.py:38`). The order of rows with equal dates is therefore left
  open.
- The dashboard removes duplicates (`spotify_dashboard.py:246`) before it
  converts dates (line 264). One play written in two date formats therefore
  survives as two rows, which are equal after conversion.
- A merge of an earlier output with nothing new re-sorts it, so it is not the
  earlier table unchanged. `PipelineMerge.MergeNothingNew` therefore states
  equality as a multiset.
- Only the pipeline sorts. The dashboard keeps concatenation order, turns a
  missing date into the text `nan` and keeps an unparseable date as text.
- The dashboard's `" at "` test is case- and whitespace-sensitive, but
  `strptime` is not. `"July 6, 2025 AT 2:30PM"` is therefore returned
  unchanged, although the format would read it.
- The pipeline's parser yields only pandas `Timestamp` values, which span
  1677-09-21 to 2262-04-11. A canonical date outside that span becomes
  missing (`PipelineDates.ToIsoFormatDropsOutOfRange`).

## Left out

- Reading and writing CSV files, Google Sheets, credentials and the network
  are left out. This covers `load_credentials`, `download_sheet_data`,
  `process_data` and the module-level calls in `Pipeline.py`. Whether a
  file exists and what it holds become parameters (`existing`).
- `CSV-Sheet.py` is left out entirely, because it is authentication and
  upload only.
- Streamlit and Plotly rendering is left out: page layout, chart styling and
  metric widgets.
- Floating-point results are left out: the 7-day rolling mean and the
  average daily plays.
- The unique-artist and unique-song metrics (`nunique`) and the total play
  count are left out. They are one-line counts with no logic of their own.
- `pd.to_datetime` is the parameter `parse`, not a model of its internals.
  This covers its format inference, time zones and `process_data`'s own call
  to it. The `Timestamp` range enters only as a premise about `parse`, in
  `PipelineDates.ToIsoFormatKeepsCanonical` and
  `PipelineDates.ToIsoFormatDropsOutOfRange`.
- Analytics plays have integer times. A missing time (NaT) is not modelled.
- The window filter at lines 176-180 and 298-302 is the same code as at
  136-140 and is modelled once, as `Analytics.Window`.
- The pattern charts are computed over `Analytics.Window` of the plays. The
  functions take the already filtered plays.
- DashboardDates.ParseLongForm: digits are ASCII only. `strptime` also
  accepts other Unicode decimal digits and Unicode case-folding matches of
  month names, and neither is modelled.
- DashboardDates.ConvertToIso: the C locale's English month names are
  assumed.
- Timestamps.FormatIso: `%Y` is always padded to four digits. Some C
  libraries print years below 1000 with fewer digits.
- A round trip through CSV is not modelled. This covers type inference on
  read and rows whose cells differ only as numbers versus text.
- Duplicate column names are excluded by the table invariant. `read_csv`
  renames them anyway.
- The row index is not modelled, because `drop_duplicates` compares cells
  only.
- RowSort.SortDesc: the result is one valid order. pandas may order rows
  with equal keys differently, so the contract leaves ties open.
- Counting.TopCounts: the order among equal counts is left open. pandas
  does not document it.
