/** The dashboard's `convert_to_iso_format`: strip double quotes, pass
    canonical-looking strings through, and rewrite the spreadsheet's long form
    "July 6, 2025 at 2:30PM" with Python's
    `datetime.strptime(s, "%B %d, %Y at %I:%M%p")`. Anything that does not
    parse comes back quote-stripped, never as a missing value.

    The parser follows CPython's `_strptime` for that format in the C locale:
    the regular expression is matched case-insensitively, every space of the
    format matches a run of one or more whitespace characters, `%d` is one or
    two digits with value 1..31, `%Y` exactly four digits, `%I` one or two
    digits with value 1..12, `%M` one or two digits with value 0..59 (a second
    digit only after 0..5), `%p` is "am" or "pm", nothing may follow, and the
    date must exist (`ValueError` otherwise, also for year 0). */
module DashboardDates {
  import opened Options
  import opened Text
  import opened Timestamps

  const MonthNames: seq<string> :=
    ["January", "February", "March", "April", "May", "June", "July",
     "August", "September", "October", "November", "December"]

  /** The C locale's month names as `_strptime` keeps them: lower-cased. */
  const MonthKeys: seq<string> :=
    ["january", "february", "march", "april", "may", "june", "july",
     "august", "september", "october", "november", "december"]

  /** `_strptime` lower-cases the matched month name and looks it up; 0 when
      the word names no month. */
  function MonthNumber(w: string): (m: int)
    ensures 0 <= m <= 12
    ensures m > 0 ==> LowerStr(w) == MonthKeys[m - 1]
    ensures m == 0 ==> LowerStr(w) !in MonthKeys
  {
    MonthFrom(LowerStr(w), 0)
  }

  function MonthFrom(key: string, k: nat): (m: int)
    requires k <= 12
    ensures m == 0 || k < m <= 12
    ensures m > 0 ==> key == MonthKeys[m - 1]
    ensures m == 0 ==> forall j :: k <= j < 12 ==> key != MonthKeys[j]
    decreases 12 - k
  {
    if k == 12 then 0
    else if key == MonthKeys[k] then k + 1
    else MonthFrom(key, k + 1)
  }

  /** `%B`: a full month name, followed by whitespace in this format. The
      month word is everything up to the first whitespace character, which
      is equivalent because no month name contains whitespace. */
  function MonthToken(s: string): (r: Option<(int, string)>)
    ensures r.Some? ==> 1 <= r.value.0 <= 12
  {
    var n := WordRun(s);
    var m := MonthNumber(s[..n]);
    if m == 0 then None else Some((m, s[n..]))
  }

  /** A space of the format: one or more whitespace characters. */
  function Spaces(s: string): Option<string> {
    var n := SpaceRun(s);
    if n == 0 then None else Some(s[n..])
  }

  function Literal(s: string, c: char): Option<string> {
    if |s| > 0 && s[0] == c then Some(s[1..]) else None
  }

  /** A literal word of the format, matched case-insensitively. */
  function Word(s: string, w: string): Option<string> {
    var n := WordRun(s);
    if LowerStr(s[..n]) == w then Some(s[n..]) else None
  }

  /** A numeric directive: `minDigits..maxDigits` digits with a value in
      `lo..hi`. Every directive of this format is followed by a non-digit, so
      the whole digit run must be the number. */
  function Number(s: string, minDigits: nat, maxDigits: nat, lo: int, hi: int): (r: Option<(int, string)>)
    ensures r.Some? ==> lo <= r.value.0 <= hi
  {
    var n := DigitRun(s);
    if minDigits <= n <= maxDigits && lo <= DigitsValue(s[..n]) <= hi
    then Some((DigitsValue(s[..n]), s[n..]))
    else None
  }

  /** `%p` at the very end: true for PM. */
  function Meridiem(s: string): (r: Option<bool>)
    ensures r.Some? ==> |s| == 2 && EndsInM(s)
  {
    if LowerStr(s) == "am" then Some(false)
    else if LowerStr(s) == "pm" then Some(true)
    else None
  }

  /** `%I` with `%p` to a 24-hour value: 12AM is hour 0, 12PM hour 12. */
  function To24(hour12: int, pm: bool): (h: int)
    requires 1 <= hour12 <= 12
    ensures 0 <= h < 24
    ensures pm <==> h >= 12
    ensures Hour12(h) == hour12
  {
    if pm then (if hour12 == 12 then 12 else hour12 + 12)
    else (if hour12 == 12 then 0 else hour12)
  }

  /** The hour on a 12-hour clock face. */
  function Hour12(h: int): int
    requires 0 <= h < 24
  {
    if h % 12 == 0 then 12 else h % 12
  }

  /** "%B %d, %Y": month, day, year, and the text after the year. */
  function DatePart(s: string): (r: Option<(int, int, int, string)>)
    ensures r.Some? ==> 1 <= r.value.0 <= 12 && 1 <= r.value.1 <= 31 && 0 <= r.value.2 <= 9999
  {
    var month :- MonthToken(s);
    var s1 :- Spaces(month.1);
    var day :- Number(s1, 1, 2, 1, 31);
    var s2 :- Literal(day.1, ',');
    var s3 :- Spaces(s2);
    var year :- Number(s3, 4, 4, 0, 9999);
    Some((month.0, day.0, year.0, year.1))
  }

  /** " at ": whitespace, the word "at" in any case, whitespace. */
  function AtPart(s: string): Option<string> {
    var s1 :- Spaces(s);
    var s2 :- Word(s1, "at");
    Spaces(s2)
  }

  /** "%I:%M%p" up to the end of the string: 24-hour hour and minute. */
  function TimePart(s: string): (r: Option<(int, int)>)
    ensures r.Some? ==> 0 <= r.value.0 < 24 && 0 <= r.value.1 < 60
  {
    var hour :- Number(s, 1, 2, 1, 12);
    var s1 :- Literal(hour.1, ':');
    var minute :- Number(s1, 1, 2, 0, 59);
    var pm :- Meridiem(minute.1);
    Some((To24(hour.0, pm), minute.0))
  }

  /** `datetime.strptime(s, "%B %d, %Y at %I:%M%p")`; `None` where Python
      raises `ValueError`. */
  function ParseLongForm(s: string): (r: Option<Stamp>)
    ensures r.Some? ==> r.value.second == 0
  {
    var date :- DatePart(s);
    var rest :- AtPart(date.3);
    var time :- TimePart(rest);
    var d := DateTime(date.2, date.0, date.1, time.0, time.1, 0);
    if Valid(d) then Some(d) else None
  }

  /** The date half of the spreadsheet's long form, "July 6, 2025": day
      unpadded, year four digits. */
  function RenderDate(d: Stamp): string {
    MonthNames[d.month - 1] + (" " + (Decimal(d.day) + (", " + Pad4(d.year))))
  }

  /** The time half, "2:30PM": 12-hour clock, hour unpadded, minutes two
      digits. */
  function RenderTime(d: Stamp): string {
    Decimal(Hour12(d.hour)) + (":" + (Pad2(d.minute) + (if d.hour < 12 then "AM" else "PM")))
  }

  /** The spreadsheet's long form of a timestamp with zero seconds, e.g.
      "July 6, 2025 at 2:30PM". */
  function RenderLongForm(d: Stamp): string
    requires d.second == 0
  {
    RenderDate(d) + (" at " + RenderTime(d))
  }

  /** `str(value)` of a cell: pandas hands a missing value to `apply` as the
      float NaN, whose string is "nan". */
  function PyStr(c: Option<string>): string {
    match c
    case None => "nan"
    case Some(s) => s
  }

  /** The tests of `convert_to_iso_format` that follow the quote stripping. */
  function ConvertStripped(s: string): string {
    if 'T' in s && |s| > 0 && s[|s| - 1] == 'Z' then s
    else if Contains(s, " at ") then
      match ParseLongForm(s)
      case Some(d) => FormatIso(d)
      case None => s
    else s
  }

  /** A canonical timestamp at a whole minute, as the long form yields. */
  predicate WholeMinute(r: string) {
    IsCanonical(r) && r[17..19] == "00"
  }

  /** A text that neither starts nor ends with a double quote. */
  predicate Unquoted(s: string) {
    |s| == 0 || (s[0] != '"' && s[|s| - 1] != '"')
  }

  /** `convert_to_iso_format(date_str)`. The result is the quote-stripped
      input, or a canonical timestamp with zero seconds; it never starts or
      ends with a double quote. */
  function ConvertToIso(raw: string): (r: string)
    ensures r == Strip(raw, '"') || WholeMinute(r)
    ensures Unquoted(r)
  {
    var s := Strip(raw, '"');
    assert Unquoted(s);
    StrippedResult(s);
    ConvertStripped(s)
  }

  lemma StrippedResult(s: string)
    ensures ConvertStripped(s) == s || WholeMinute(ConvertStripped(s))
    ensures Unquoted(s) ==> Unquoted(ConvertStripped(s))
  {
    var r := ConvertStripped(s);
    if r != s {
      assert Pad2(0) == "00";
      assert IsDigits(r[0..4]) && r[0] == r[0..4][0];
    }
  }

  /** The converter applied to one `Date/Time` cell by `Series.apply`. The
      dashboard path has no null marker: every cell comes out present. */
  function ConvertCell(c: Option<string>): (r: Option<string>)
    ensures r.Some?
    ensures c.None? ==> r == Some("nan")
    ensures c.Some? ==> r == Some(ConvertToIso(c.value))
  {
    ShortNeverContains("nan", " at ");
    StripUnchanged("nan", '"');
    Some(ConvertToIso(PyStr(c)))
  }

  lemma ShortNeverContains(s: string, pat: string)
    requires |s| < |pat|
    ensures !Contains(s, pat)
  {
    if |s| > 0 {
      ShortNeverContains(s[1..], pat);
    }
  }

  // ---------------------------------------------------------------------
  // Properties of the converter

  /** The quotes are removed before any other test: a quoted input converts
      exactly like its unquoted form. Other characters, single quotes
      included, are left where they are (see `Strip`). */
  lemma ConvertStripsQuotesFirst(raw: string)
    ensures ConvertToIso(raw) == ConvertToIso(Strip(raw, '"'))
  {
    StripIdempotent(raw, '"');
  }

  /** A stripped string containing `T` and ending in `Z` is returned as it is,
      whether or not it is a date. */
  lemma ConvertPassesIsoLookalikes(raw: string)
    requires var s := Strip(raw, '"'); 'T' in s && s[|s| - 1] == 'Z'
    ensures ConvertToIso(raw) == Strip(raw, '"')
  {
  }

  /** A failed parse is not an error: the stripped input comes back. */
  lemma ConvertKeepsUnparsed(raw: string)
    requires ParseLongForm(Strip(raw, '"')).None? || !Contains(Strip(raw, '"'), " at ")
    ensures ConvertToIso(raw) == Strip(raw, '"')
  {
  }

  /** Converting twice is converting once: successful outputs hit the
      pass-through test and fall-backs are already stripped. */
  lemma ConvertIdempotent(raw: string)
    ensures ConvertToIso(ConvertToIso(raw)) == ConvertToIso(raw)
  {
    var s := Strip(raw, '"');
    var r := ConvertToIso(raw);
    StripUnchanged(r, '"');
    if r == s {
      StripIdempotent(raw, '"');
    } else {
      assert IsCanonical(r);
      assert r[10] == 'T';
    }
  }

  /** A canonical timestamp string is returned as it is. */
  lemma ConvertKeepsCanonical(s: string)
    requires IsCanonical(s)
    ensures ConvertToIso(s) == s
  {
    StripUnchanged(s, '"');
    assert s[10] == 'T';
  }

  /** The cell-level converter is idempotent too, missing cells included. */
  lemma ConvertCellIdempotent(c: Option<string>)
    ensures ConvertCell(ConvertCell(c)) == ConvertCell(c)
  {
    ConvertIdempotent(PyStr(c));
  }

  /** Every long-form timestamp converts to its canonical form: `12AM` is hour
      00, `12PM` hour 12, seconds are always 00. */
  lemma ConvertLongForm(d: Stamp)
    requires d.second == 0
    ensures ConvertToIso(RenderLongForm(d)) == FormatIso(d)
  {
    var s := RenderLongForm(d);
    RenderLongFormEnds(d);
    StripUnchanged(s, '"');
    ContainsSuffix(RenderDate(d), " at " + RenderTime(d), " at ");
    ParseRenderLongForm(d);
    assert ConvertStripped(s) == FormatIso(d);
  }

  /** The long form starts with a capital letter and ends with the `M` of
      "AM" or "PM". */
  lemma RenderLongFormEnds(d: Stamp)
    requires d.second == 0
    ensures var s := RenderLongForm(d); |s| > 0 && s[0] != '"' && s[|s| - 1] == 'M'
  {
    var date := RenderDate(d);
    var time := RenderTime(d);
    assert date[0] == MonthNames[d.month - 1][0];
    assert 'A' <= date[0] <= 'S';
    assert time[|time| - 1] == 'M';
    assert RenderLongForm(d) == date + (" at " + time);
  }

  /** An example: "July 6, 2025 at 2:30PM" becomes
      "2025-07-06T14:30:00Z". */
  lemma ConvertExample()
    ensures ConvertToIso("July 6, 2025 at 2:30PM") == "2025-07-06T14:30:00Z"
  {
    var d: Stamp := DateTime(2025, 7, 6, 14, 30, 0);
    ExampleRender(d);
    ExampleFormat(d);
    ConvertLongForm(d);
  }

  lemma ExampleRender(d: Stamp)
    requires d == DateTime(2025, 7, 6, 14, 30, 0)
    ensures RenderLongForm(d) == "July 6, 2025 at 2:30PM"
  {
    assert Pad4(2025) == "2025";
    assert RenderDate(d) == "July 6, 2025";
    assert RenderTime(d) == "2:30PM";
  }

  lemma ExampleFormat(d: Stamp)
    requires d == DateTime(2025, 7, 6, 14, 30, 0)
    ensures FormatIso(d) == "2025-07-06T14:30:00Z"
  {
    ExampleDate();
    ExampleTime();
    assert FormatIso(d) == (Pad4(2025) + "-" + Pad2(7) + "-" + Pad2(6)) + "T" +
                           (Pad2(14) + ":" + Pad2(30) + ":" + Pad2(0)) + "Z";
  }

  lemma ExampleDate()
    ensures Pad4(2025) + "-" + Pad2(7) + "-" + Pad2(6) == "2025-07-06"
  {
    assert Pad4(2025) == "2025";
    assert Pad2(7) == "07" && Pad2(6) == "06";
  }

  lemma ExampleTime()
    ensures Pad2(14) + ":" + Pad2(30) + ":" + Pad2(0) == "14:30:00"
  {
    assert Pad2(14) == "14" && Pad2(30) == "30" && Pad2(0) == "00";
  }

  // ---------------------------------------------------------------------
  // The long-form parser reads back what the renderer writes

  lemma RunOfPrefix(a: string, b: string, p: char -> bool)
    requires forall i :: 0 <= i < |a| ==> p(a[i])
    requires |b| == 0 || !p(b[0])
    ensures RunLength(a + b, p) == |a|
  {
    if |a| > 0 {
      assert (a + b)[1..] == a[1..] + b;
      RunOfPrefix(a[1..], b, p);
    }
  }

  lemma MonthNameHasNoSpace(w: string)
    requires w in MonthNames
    ensures forall i :: 0 <= i < |w| ==> !IsSpace(w[i])
  {
  }

  lemma MonthNumberOfName(m: int)
    requires 1 <= m <= 12
    ensures MonthNumber(MonthNames[m - 1]) == m
  {
    LowerMonthName(m - 1);
    MonthKeyLookup(m);
  }

  lemma LowerMonthName(m: int)
    requires 0 <= m < 12
    ensures LowerStr(MonthNames[m]) == MonthKeys[m]
  {
    var w := MonthNames[m];
    assert forall i :: 0 <= i < |w| ==> Lower(w[i]) == MonthKeys[m][i];
  }

  lemma MonthKeyLookup(m: int)
    requires 1 <= m <= 12
    ensures MonthFrom(MonthKeys[m - 1], 0) == m
  {
    var r := MonthFrom(MonthKeys[m - 1], 0);
    assert forall i, j :: 0 <= i < j < 12 ==> MonthKeys[i] != MonthKeys[j];
  }

  lemma MonthTokenRender(m: int, rest: string)
    requires 1 <= m <= 12
    requires |rest| > 0 && IsSpace(rest[0])
    ensures MonthToken(MonthNames[m - 1] + rest) == Some((m, rest))
  {
    var w := MonthNames[m - 1];
    MonthNameHasNoSpace(w);
    RunOfPrefix(w, rest, c => !IsSpace(c));
    assert (w + rest)[..|w|] == w;
    assert (w + rest)[|w|..] == rest;
    MonthNumberOfName(m);
  }

  lemma DigitIsNotSpace(c: char)
    requires IsDigit(c)
    ensures !IsSpace(c)
  {
  }

  lemma SpacesRender(sp: string, rest: string)
    requires |sp| > 0 && forall i :: 0 <= i < |sp| ==> IsSpace(sp[i])
    requires |rest| == 0 || !IsSpace(rest[0])
    ensures Spaces(sp + rest) == Some(rest)
  {
    RunOfPrefix(sp, rest, IsSpace);
    assert (sp + rest)[|sp|..] == rest;
  }

  lemma NumberRender(digits: string, rest: string, minDigits: nat, maxDigits: nat, lo: int, hi: int)
    requires IsDigits(digits) && minDigits <= |digits| <= maxDigits
    requires lo <= DigitsValue(digits) <= hi
    requires |rest| == 0 || !IsDigit(rest[0])
    ensures Number(digits + rest, minDigits, maxDigits, lo, hi) == Some((DigitsValue(digits), rest))
  {
    RunOfPrefix(digits, rest, IsDigit);
    assert (digits + rest)[..|digits|] == digits;
    assert (digits + rest)[|digits|..] == rest;
  }

  lemma WordRender(w: string, rest: string)
    requires forall i :: 0 <= i < |w| ==> !IsSpace(w[i])
    requires LowerStr(w) == w
    requires |rest| > 0 && IsSpace(rest[0])
    ensures Word(w + rest, w) == Some(rest)
  {
    RunOfPrefix(w, rest, c => !IsSpace(c));
    assert (w + rest)[..|w|] == w;
    assert (w + rest)[|w|..] == rest;
  }

  lemma ContainsSuffix(pre: string, tail: string, pat: string)
    requires StartsWith(tail, pat)
    ensures Contains(pre + tail, pat)
  {
    if |pre| > 0 {
      assert (pre + tail)[1..] == pre[1..] + tail;
      ContainsSuffix(pre[1..], tail, pat);
    } else {
      assert pre + tail == tail;
    }
  }

  lemma DatePartRender(d: Stamp, rest: string)
    requires |rest| > 0 && IsSpace(rest[0])
    ensures DatePart(RenderDate(d) + rest) == Some((d.month, d.day, d.year, rest))
  {
    var t3 := Pad4(d.year) + rest;
    var t2 := " " + t3;
    var t1 := "," + t2;
    var t0 := Decimal(d.day) + t1;
    var s := MonthNames[d.month - 1] + (" " + t0);
    assert RenderDate(d) + rest == s;
    DateHeadRender(d, t1);
    DateTailRender(d, rest);
    DatePartSteps(s, d.month, " " + t0, t0, d.day, t1, t2, t3, d.year, rest);
  }

  /** The month, the space and the day of the long form. */
  lemma DateHeadRender(d: Stamp, t1: string)
    requires |t1| > 0 && t1[0] == ','
    ensures var t0 := Decimal(d.day) + t1;
            && MonthToken(MonthNames[d.month - 1] + (" " + t0)) == Some((d.month, " " + t0))
            && Spaces(" " + t0) == Some(t0)
            && Number(t0, 1, 2, 1, 31) == Some((d.day, t1))
  {
    var t0 := Decimal(d.day) + t1;
    MonthTokenRender(d.month, " " + t0);
    assert t0[0] == Decimal(d.day)[0];
    DigitIsNotSpace(t0[0]);
    SpacesRender(" ", t0);
    NumberRender(Decimal(d.day), t1, 1, 2, 1, 31);
  }

  /** The comma, the space and the year of the long form. */
  lemma DateTailRender(d: Stamp, rest: string)
    requires |rest| > 0 && IsSpace(rest[0])
    ensures var t3 := Pad4(d.year) + rest;
            && Literal("," + (" " + t3), ',') == Some(" " + t3)
            && Spaces(" " + t3) == Some(t3)
            && Number(t3, 4, 4, 0, 9999) == Some((d.year, rest))
  {
    var t3 := Pad4(d.year) + rest;
    assert t3[0] == Pad4(d.year)[0];
    DigitIsNotSpace(t3[0]);
    SpacesRender(" ", t3);
    assert !IsDigit(rest[0]);
    NumberRender(Pad4(d.year), rest, 4, 4, 0, 9999);
  }

  lemma DatePartSteps(s: string, month: int, s1: string, s2: string, day: int, s3: string,
                      s4: string, s5: string, year: int, rest: string)
    requires MonthToken(s) == Some((month, s1))
    requires Spaces(s1) == Some(s2)
    requires Number(s2, 1, 2, 1, 31) == Some((day, s3))
    requires Literal(s3, ',') == Some(s4)
    requires Spaces(s4) == Some(s5)
    requires Number(s5, 4, 4, 0, 9999) == Some((year, rest))
    ensures DatePart(s) == Some((month, day, year, rest))
  {
  }

  lemma AtPartRender(t: string)
    requires |t| > 0 && IsDigit(t[0])
    ensures AtPart(" at " + t) == Some(t)
  {
    var t2 := " " + t;
    var t1 := "at" + t2;
    assert " at " + t == " " + t1;
    SpacesRender(" ", t1);
    assert LowerStr("at") == "at";
    WordRender("at", t2);
    SpacesRender(" ", t);
  }

  lemma TimePartRender(d: Stamp)
    ensures TimePart(RenderTime(d)) == Some((d.hour, d.minute))
  {
    var h := Hour12(d.hour);
    var pm := d.hour >= 12;
    var mer := if d.hour < 12 then "AM" else "PM";
    var t1 := Pad2(d.minute) + mer;
    var t0 := ":" + t1;
    var s := Decimal(h) + t0;
    assert RenderTime(d) == s;
    NumberRender(Decimal(h), t0, 1, 2, 1, 12);
    assert Literal(t0, ':') == Some(t1);
    assert !IsDigit(mer[0]);
    NumberRender(Pad2(d.minute), mer, 1, 2, 0, 59);
    MeridiemRender(pm);
    TimePartSteps(s, h, t0, t1, d.minute, mer, pm);
    To24OfHour12(d.hour);
  }

  /** A 24-hour value is recovered from its clock-face hour and half of the
      day. */
  lemma To24OfHour12(h: int)
    requires 0 <= h < 24
    ensures To24(Hour12(h), h >= 12) == h
  {
    if h < 12 {
      assert h % 12 == h;
    } else {
      assert h % 12 == h - 12;
    }
  }

  lemma MeridiemRender(pm: bool)
    ensures Meridiem(if pm then "PM" else "AM") == Some(pm)
  {
    assert LowerStr("PM") == "pm";
    assert LowerStr("AM") == "am";
  }

  lemma TimePartSteps(s: string, hour12: int, s1: string, s2: string, minute: int, s3: string, pm: bool)
    requires Number(s, 1, 2, 1, 12) == Some((hour12, s1))
    requires Literal(s1, ':') == Some(s2)
    requires Number(s2, 1, 2, 0, 59) == Some((minute, s3))
    requires Meridiem(s3) == Some(pm)
    ensures TimePart(s) == Some((To24(hour12, pm), minute))
  {
  }

  /** The parser inverts the renderer: `ParseLongForm(RenderLongForm(d)) == d`
      for every timestamp with zero seconds. */
  lemma ParseRenderLongForm(d: Stamp)
    requires d.second == 0
    ensures ParseLongForm(RenderLongForm(d)) == Some(d)
  {
    var time := RenderTime(d);
    DatePartRender(d, " at " + time);
    AtPartRender(time);
    TimePartRender(d);
  }

  // ---------------------------------------------------------------------
  // Every spelling the parser accepts

  /** A non-empty run of whitespace, where the format has a space. */
  predicate IsBlank(s: string) {
    |s| > 0 && forall i :: 0 <= i < |s| ==> IsSpace(s[i])
  }

  /** A non-empty word without whitespace. */
  predicate IsToken(s: string) {
    |s| > 0 && forall i :: 0 <= i < |s| ==> !IsSpace(s[i])
  }

  /** A text in the long form's layout, piece by piece: month word, blank,
      day digits, ",", blank, year digits, blank, the word "at", blank, hour
      digits, ":", minute digits, and the rest after the minutes. */
  datatype Pieces = Pieces(month: string, sp1: string, day: string, sp2: string, year: string,
                           sp3: string, at: string, sp4: string,
                           hour: string, minute: string, tail: string)

  /** The pieces have the layout of the format: words without whitespace,
      runs of whitespace of any length, one or two digits for day, hour and
      minute (padded or not), four for the year, and a rest that does not
      continue the minutes. Whether the values make a date is left open. */
  predicate Shaped(p: Pieces) {
    && IsToken(p.month) && IsBlank(p.sp1)
    && IsDigits(p.day) && 1 <= |p.day| <= 2
    && IsBlank(p.sp2) && IsDigits(p.year) && |p.year| == 4
    && IsBlank(p.sp3) && IsToken(p.at) && IsBlank(p.sp4)
    && IsDigits(p.hour) && 1 <= |p.hour| <= 2
    && IsDigits(p.minute) && 1 <= |p.minute| <= 2
    && (|p.tail| == 0 || !IsDigit(p.tail[0]))
  }

  function Assemble(p: Pieces): string {
    p.month + (p.sp1 + (p.day + ("," + (p.sp2 + (p.year + (p.sp3 + (p.at + (p.sp4 +
      (p.hour + (":" + (p.minute + p.tail)))))))))))
  }

  /** What `strptime` makes of such a text, read off the pieces: the month
      named in any case, "at" in any case, "AM" or "PM" in any case as the
      whole rest, an hour from 1 to 12, and fields that form a real date and
      time; `None` (a `ValueError`) otherwise. */
  function PiecesStamp(p: Pieces): Option<Stamp>
    requires Shaped(p)
  {
    var m := MonthNumber(p.month);
    var pm := Meridiem(p.tail);
    var h := DigitsValue(p.hour);
    if m == 0 || LowerStr(p.at) != "at" || pm.None? || !(1 <= h <= 12) then None
    else
      var d := DateTime(DigitsValue(p.year), m, DigitsValue(p.day), To24(h, pm.value), DigitsValue(p.minute), 0);
      if Valid(d) then Some(d) else None
  }

  lemma TokenRun(w: string, rest: string)
    requires IsToken(w) && |rest| > 0 && IsSpace(rest[0])
    ensures WordRun(w + rest) == |w| && (w + rest)[..|w|] == w && (w + rest)[|w|..] == rest
  {
    RunOfPrefix(w, rest, c => !IsSpace(c));
    assert (w + rest)[..|w|] == w;
    assert (w + rest)[|w|..] == rest;
  }

  /** A digit run followed by a non-digit is read as one number, kept when
      it has an allowed length and value. */
  lemma NumberAny(digits: string, rest: string, minDigits: nat, maxDigits: nat, lo: int, hi: int)
    requires IsDigits(digits) && minDigits <= |digits| <= maxDigits
    requires |rest| == 0 || !IsDigit(rest[0])
    ensures Number(digits + rest, minDigits, maxDigits, lo, hi) ==
            if lo <= DigitsValue(digits) <= hi then Some((DigitsValue(digits), rest)) else None
  {
    RunOfPrefix(digits, rest, IsDigit);
    assert (digits + rest)[..|digits|] == digits;
    assert (digits + rest)[|digits|..] == rest;
  }

  lemma DigitsNotSpace(s: string, rest: string)
    requires IsDigits(s) && |s| > 0
    ensures (s + rest)[0] == s[0] && IsDigit((s + rest)[0]) && !IsSpace((s + rest)[0])
  {
    DigitIsNotSpace(s[0]);
  }

  /** "%B %d, %Y" over the first five pieces. */
  lemma DatePartAny(p: Pieces, t6: string)
    requires Shaped(p) && |t6| > 0 && IsSpace(t6[0])
    ensures var m := MonthNumber(p.month);
            DatePart(p.month + (p.sp1 + (p.day + ("," + (p.sp2 + (p.year + t6)))))) ==
            if m > 0 && 1 <= DigitsValue(p.day) <= 31
            then Some((m, DigitsValue(p.day), DigitsValue(p.year), t6)) else None
  {
    var t5 := p.year + t6;
    var t4 := p.sp2 + t5;
    var t3 := "," + t4;
    var t2 := p.day + t3;
    var t1 := p.sp1 + t2;
    var s := p.month + t1;
    assert t1[0] == p.sp1[0];
    TokenRun(p.month, t1);
    DigitsNotSpace(p.day, t3);
    SpacesRender(p.sp1, t2);
    NumberAny(p.day, t3, 1, 2, 1, 31);
    DigitsNotSpace(p.year, t6);
    SpacesRender(p.sp2, t5);
    DigitIsNotSpace(p.year[0]);
    assert !IsDigit(t6[0]);
    NumberAny(p.year, t6, 4, 4, 0, 9999);
    DigitsValueBound(p.year);
  }

  /** " at " over the middle three pieces. */
  lemma AtPartAny(p: Pieces, t9: string)
    requires Shaped(p) && |t9| > 0 && IsDigit(t9[0])
    ensures AtPart(p.sp3 + (p.at + (p.sp4 + t9))) == if LowerStr(p.at) == "at" then Some(t9) else None
  {
    var t8 := p.sp4 + t9;
    var t7 := p.at + t8;
    assert t7[0] == p.at[0];
    SpacesRender(p.sp3, t7);
    assert t8[0] == p.sp4[0];
    TokenRun(p.at, t8);
    DigitIsNotSpace(t9[0]);
    SpacesRender(p.sp4, t9);
  }

  /** "%I:%M%p" over the last three pieces. */
  lemma TimePartAny(p: Pieces)
    requires Shaped(p)
    ensures var h := DigitsValue(p.hour);
            var pm := Meridiem(p.tail);
            TimePart(p.hour + (":" + (p.minute + p.tail))) ==
            if 1 <= h <= 12 && DigitsValue(p.minute) <= 59 && pm.Some?
            then Some((To24(h, pm.value), DigitsValue(p.minute))) else None
  {
    var t11 := p.minute + p.tail;
    var t10 := ":" + t11;
    NumberAny(p.hour, t10, 1, 2, 1, 12);
    assert Literal(t10, ':') == Some(t11);
    NumberAny(p.minute, p.tail, 1, 2, 0, 59);
  }

  /** The parser reads every text in the long form's layout exactly as the
      pieces say: it succeeds precisely when they name a month, "at" and a
      half of the day, with an hour from 1 to 12 and a date and time that
      exist (February 30 or year 0000 is a `ValueError`). */
  lemma ParseAssembled(p: Pieces)
    requires Shaped(p)
    ensures ParseLongForm(Assemble(p)) == PiecesStamp(p)
  {
    var t9 := p.hour + (":" + (p.minute + p.tail));
    var t6 := p.sp3 + (p.at + (p.sp4 + t9));
    assert t6[0] == p.sp3[0];
    DatePartAny(p, t6);
    DigitsNotSpace(p.hour, ":" + (p.minute + p.tail));
    AtPartAny(p, t9);
    TimePartAny(p);
    assert Assemble(p) == p.month + (p.sp1 + (p.day + ("," + (p.sp2 + (p.year + t6)))));
  }

  /** A text in the long form's layout whose pieces name a real date and
      time. */
  ghost predicate LongFormText(s: string) {
    exists p :: Shaped(p) && Assemble(p) == s && PiecesStamp(p).Some?
  }

  /** The converse of `ParseAssembled`: the parser accepts a text exactly
      when it is in the long form's layout and names a real date and time,
      and then it reads the date and time the pieces name. */
  lemma ParsedIsLongFormText(s: string)
    ensures ParseLongForm(s).Some? <==> LongFormText(s)
    ensures ParseLongForm(s).Some? ==>
              exists p :: Shaped(p) && Assemble(p) == s && PiecesStamp(p) == ParseLongForm(s)
  {
    if ParseLongForm(s).Some? {
      var month, sp1, day, sp2, year, t6 := DateSplit(s);
      var sp3, at, sp4, t9 := AtSplit(t6);
      var hour, minute, tail := TimeSplit(t9);
      var p := Pieces(month, sp1, day, sp2, year, sp3, at, sp4, hour, minute, tail);
      assert Shaped(p);
      assert Assemble(p) == s;
      ParseAssembled(p);
    }
    if LongFormText(s) {
      var p :| Shaped(p) && Assemble(p) == s && PiecesStamp(p).Some?;
      ParseAssembled(p);
    }
  }

  /** Anything else comes back quote-stripped: a stripped text that is not
      a real date and time in the long form's layout is returned as it
      is. */
  lemma ConvertOutsideLayout(raw: string)
    requires !LongFormText(Strip(raw, '"'))
    ensures ConvertToIso(raw) == Strip(raw, '"')
  {
    ParsedIsLongFormText(Strip(raw, '"'));
    ConvertKeepsUnparsed(raw);
  }

  /** The whitespace a `Spaces` step consumes, and what it leaves. */
  lemma SpacesSplit(s: string) returns (sp: string, rest: string)
    requires Spaces(s).Some?
    ensures IsBlank(sp) && s == sp + rest && rest == Spaces(s).value
  {
    var n := SpaceRun(s);
    sp, rest := s[..n], s[n..];
    assert s == sp + rest;
  }

  /** The digits a `Number` step consumes, and what it leaves. */
  lemma NumberSplit(s: string, minDigits: nat, maxDigits: nat, lo: int, hi: int)
      returns (digits: string, rest: string)
    requires Number(s, minDigits, maxDigits, lo, hi).Some?
    ensures IsDigits(digits) && minDigits <= |digits| <= maxDigits
    ensures DigitsValue(digits) == Number(s, minDigits, maxDigits, lo, hi).value.0
    ensures s == digits + rest && rest == Number(s, minDigits, maxDigits, lo, hi).value.1
    ensures |rest| == 0 || !IsDigit(rest[0])
  {
    var n := DigitRun(s);
    digits, rest := s[..n], s[n..];
    assert s == digits + rest;
  }

  /** The word a word step consumes, and what it leaves. */
  lemma WordSplit(s: string) returns (w: string, rest: string)
    ensures w == s[..WordRun(s)] && rest == s[WordRun(s)..] && s == w + rest
    ensures forall i :: 0 <= i < |w| ==> !IsSpace(w[i])
  {
    var n := WordRun(s);
    w, rest := s[..n], s[n..];
    assert s == w + rest;
  }

  /** "%B %d, %Y" as pieces. */
  lemma DateSplit(s: string) returns (month: string, sp1: string, day: string, sp2: string,
                                      year: string, t6: string)
    requires DatePart(s).Some?
    ensures IsToken(month) && IsBlank(sp1) && IsDigits(day) && 1 <= |day| <= 2
    ensures IsBlank(sp2) && IsDigits(year) && |year| == 4 && t6 == DatePart(s).value.3
    ensures s == month + (sp1 + (day + ("," + (sp2 + (year + t6)))))
  {
    var mt := MonthToken(s).value;
    var s2 := Spaces(mt.1).value;
    var dy := Number(s2, 1, 2, 1, 31).value;
    var s4 := Literal(dy.1, ',').value;
    var s5 := Spaces(s4).value;
    var yr := Number(s5, 4, 4, 0, 9999).value;
    assert DatePart(s).value.3 == yr.1;
    month, sp1, day, sp2, year, t6 := DateStepsSplit(s, mt.1, s2, dy.1, s4, s5, yr.1);
  }

  lemma DateStepsSplit(s: string, s1: string, s2: string, s3: string, s4: string, s5: string, rest: string)
      returns (month: string, sp1: string, day: string, sp2: string, year: string, t6: string)
    requires MonthToken(s).Some? && MonthToken(s).value.1 == s1
    requires Spaces(s1) == Some(s2)
    requires Number(s2, 1, 2, 1, 31).Some? && Number(s2, 1, 2, 1, 31).value.1 == s3
    requires Literal(s3, ',') == Some(s4)
    requires Spaces(s4) == Some(s5)
    requires Number(s5, 4, 4, 0, 9999).Some? && Number(s5, 4, 4, 0, 9999).value.1 == rest
    ensures IsToken(month) && IsBlank(sp1) && IsDigits(day) && 1 <= |day| <= 2
    ensures IsBlank(sp2) && IsDigits(year) && |year| == 4 && t6 == rest
    ensures s == month + (sp1 + (day + ("," + (sp2 + (year + t6)))))
  {
    month, sp1, day := DateHeadSplit(s, s1, s2, s3);
    sp2, year := DateTailSplit(s3, s4, s5, rest);
    t6 := rest;
  }

  /** "%B %d" as pieces, up to the comma. */
  lemma DateHeadSplit(s: string, s1: string, s2: string, s3: string)
      returns (month: string, sp1: string, day: string)
    requires MonthToken(s).Some? && MonthToken(s).value.1 == s1
    requires Spaces(s1) == Some(s2)
    requires Number(s2, 1, 2, 1, 31).Some? && Number(s2, 1, 2, 1, 31).value.1 == s3
    ensures IsToken(month) && IsBlank(sp1) && IsDigits(day) && 1 <= |day| <= 2
    ensures s == month + (sp1 + (day + s3))
  {
    var r1, r2, r3;
    month, r1 := MonthSplit(s);
    sp1, r2 := SpacesSplit(r1);
    day, r3 := NumberSplit(r2, 1, 2, 1, 31);
  }

  /** ", %Y" as pieces, from the comma on. */
  lemma DateTailSplit(s3: string, s4: string, s5: string, rest: string)
      returns (sp2: string, year: string)
    requires Literal(s3, ',') == Some(s4)
    requires Spaces(s4) == Some(s5)
    requires Number(s5, 4, 4, 0, 9999).Some? && Number(s5, 4, 4, 0, 9999).value.1 == rest
    ensures IsBlank(sp2) && IsDigits(year) && |year| == 4
    ensures s3 == "," + (sp2 + (year + rest))
  {
    var r5, t6;
    assert s3 == "," + s4;
    sp2, r5 := SpacesSplit(s4);
    year, t6 := NumberSplit(r5, 4, 4, 0, 9999);
  }

  /** The month word a `MonthToken` step consumes, and what it leaves. */
  lemma MonthSplit(s: string) returns (month: string, rest: string)
    requires MonthToken(s).Some?
    ensures IsToken(month) && MonthNumber(month) == MonthToken(s).value.0
    ensures rest == MonthToken(s).value.1 && s == month + rest
  {
    month, rest := WordSplit(s);
    var m := MonthNumber(month);
    assert LowerStr(month) == MonthKeys[m - 1];
    assert |MonthKeys[m - 1]| > 0;
  }

  /** " at " as pieces. */
  lemma AtSplit(u: string) returns (sp3: string, at: string, sp4: string, t9: string)
    requires AtPart(u).Some?
    ensures IsBlank(sp3) && IsToken(at) && LowerStr(at) == "at" && IsBlank(sp4)
    ensures t9 == AtPart(u).value && u == sp3 + (at + (sp4 + t9))
  {
    var r1;
    sp3, r1 := SpacesSplit(u);
    var r2;
    at, r2 := WordSplit(r1);
    sp4, t9 := SpacesSplit(r2);
  }

  /** "%I:%M%p" as pieces. */
  lemma TimeSplit(t: string) returns (hour: string, minute: string, tail: string)
    requires TimePart(t).Some?
    ensures IsDigits(hour) && 1 <= |hour| <= 2 && IsDigits(minute) && 1 <= |minute| <= 2
    ensures |tail| == 0 || !IsDigit(tail[0])
    ensures t == hour + (":" + (minute + tail))
  {
    var r1 := Number(t, 1, 2, 1, 12).value.1;
    var r2 := Literal(r1, ':').value;
    hour, minute, tail := TimeStepsSplit(t, r1, r2);
  }

  lemma TimeStepsSplit(t: string, r1: string, r2: string) returns (hour: string, minute: string, tail: string)
    requires Number(t, 1, 2, 1, 12).Some? && Number(t, 1, 2, 1, 12).value.1 == r1
    requires Literal(r1, ':') == Some(r2) && Number(r2, 1, 2, 0, 59).Some?
    ensures IsDigits(hour) && 1 <= |hour| <= 2 && IsDigits(minute) && 1 <= |minute| <= 2
    ensures |tail| == 0 || !IsDigit(tail[0])
    ensures t == hour + (":" + (minute + tail))
  {
    var s1;
    hour, s1 := NumberSplit(t, 1, 2, 1, 12);
    assert r1 == ":" + r2;
    minute, tail := NumberSplit(r2, 1, 2, 0, 59);
    TimeChain(t, hour, r1, r2, minute, tail);
  }

  lemma TimeChain(t: string, hour: string, r1: string, r2: string, minute: string, tail: string)
    requires t == hour + r1 && r1 == ":" + r2 && r2 == minute + tail
    ensures t == hour + (":" + (minute + tail))
  {
  }

  /** `t` is the tail of `s` that a parsing step leaves over. */
  predicate IsSuffix(t: string, s: string) {
    |t| <= |s| && s[|s| - |t|..] == t
  }

  lemma SuffixTrans(a: string, b: string, c: string)
    requires IsSuffix(a, b) && IsSuffix(b, c)
    ensures IsSuffix(a, c)
  {
    assert c[|c| - |a|..] == c[|c| - |b|..][|b| - |a|..];
  }

  /** The text ends in the `m` of "am" or "pm", in either case. */
  predicate EndsInM(s: string) {
    |s| > 0 && (s[|s| - 1] == 'm' || s[|s| - 1] == 'M')
  }

  lemma SuffixEndsInM(t: string, s: string)
    requires IsSuffix(t, s) && EndsInM(t)
    ensures EndsInM(s)
  {
    assert s[|s| - 1] == s[|s| - |t|..][|t| - 1];
  }

  lemma RestSuffix(s: string, n: nat)
    requires n <= |s|
    ensures IsSuffix(s[n..], s)
  {
  }

  /** Text the parser accepts ends in the `m` of "am" or "pm". */
  lemma ParsedEndsInM(s: string)
    requires ParseLongForm(s).Some?
    ensures EndsInM(s)
  {
    var date := DatePart(s).value;
    DatePartSuffix(s);
    var rest := AtPart(date.3).value;
    AtPartSuffix(date.3);
    TimePartEndsInM(rest);
    SuffixTrans(rest, date.3, s);
    SuffixEndsInM(rest, s);
  }

  lemma DatePartSuffix(s: string)
    requires DatePart(s).Some?
    ensures IsSuffix(DatePart(s).value.3, s)
  {
    var month := MonthToken(s).value;
    var s1 := Spaces(month.1).value;
    var day := Number(s1, 1, 2, 1, 31).value;
    var s2 := Literal(day.1, ',').value;
    var s3 := Spaces(s2).value;
    var year := Number(s3, 4, 4, 0, 9999).value;
    assert DatePart(s).value.3 == year.1;
    MonthTokenSuffix(s);
    SpacesSuffix(month.1);
    NumberSuffix(s1, 1, 2, 1, 31);
    RestSuffix(day.1, 1);
    SpacesSuffix(s2);
    NumberSuffix(s3, 4, 4, 0, 9999);
    SuffixTrans(year.1, s3, s2);
    SuffixTrans(year.1, s2, day.1);
    SuffixTrans(year.1, day.1, s1);
    SuffixTrans(year.1, s1, month.1);
    SuffixTrans(year.1, month.1, s);
  }

  lemma MonthTokenSuffix(s: string)
    requires MonthToken(s).Some?
    ensures IsSuffix(MonthToken(s).value.1, s)
  {
    RestSuffix(s, WordRun(s));
  }

  lemma SpacesSuffix(s: string)
    requires Spaces(s).Some?
    ensures IsSuffix(Spaces(s).value, s)
  {
    RestSuffix(s, SpaceRun(s));
  }

  lemma NumberSuffix(s: string, minDigits: nat, maxDigits: nat, lo: int, hi: int)
    requires Number(s, minDigits, maxDigits, lo, hi).Some?
    ensures IsSuffix(Number(s, minDigits, maxDigits, lo, hi).value.1, s)
  {
    RestSuffix(s, DigitRun(s));
  }

  lemma AtPartSuffix(s: string)
    requires AtPart(s).Some?
    ensures IsSuffix(AtPart(s).value, s)
  {
    var s1 := Spaces(s).value;
    RestSuffix(s, SpaceRun(s));
    var s2 := Word(s1, "at").value;
    RestSuffix(s1, WordRun(s1));
    RestSuffix(s2, SpaceRun(s2));
    SuffixTrans(AtPart(s).value, s2, s1);
    SuffixTrans(AtPart(s).value, s1, s);
  }

  lemma TimePartEndsInM(s: string)
    requires TimePart(s).Some?
    ensures EndsInM(s)
  {
    var hour := Number(s, 1, 2, 1, 12).value;
    RestSuffix(s, DigitRun(s));
    var s1 := Literal(hour.1, ':').value;
    RestSuffix(hour.1, 1);
    var minute := Number(s1, 1, 2, 0, 59).value;
    RestSuffix(s1, DigitRun(s1));
    SuffixTrans(minute.1, s1, hour.1);
    SuffixTrans(minute.1, hour.1, s);
    SuffixEndsInM(minute.1, s);
  }

  /** Text the parser accepts ends in "am" or "pm", never in `Z`. */
  lemma MeridiemNotZ(s: string)
    requires EndsInM(s)
    ensures s[|s| - 1] != 'Z' && s[|s| - 1] != '"'
  {
  }

  /** Whatever the parser accepts is converted to its canonical form, as
      soon as the stripped text contains " at ": accepted text ends in "am"
      or "pm", so it never takes the pass-through. */
  lemma ConvertParsed(raw: string, d: Stamp)
    requires Contains(Strip(raw, '"'), " at ") && ParseLongForm(Strip(raw, '"')) == Some(d)
    ensures ConvertToIso(raw) == FormatIso(d)
  {
    ParsedEndsInM(Strip(raw, '"'));
    MeridiemNotZ(Strip(raw, '"'));
  }

  /** Every spelling of a real date and time in the long form's layout that
      contains " at " converts to the canonical form of that date and time:
      "july 06, 2025 at 02:30pm" as well as "July 6, 2025 at 2:30PM". */
  lemma ConvertAssembled(p: Pieces)
    requires Shaped(p) && PiecesStamp(p).Some? && Contains(Assemble(p), " at ")
    ensures ConvertToIso(Assemble(p)) == FormatIso(PiecesStamp(p).value)
  {
    var s := Assemble(p);
    ParseAssembled(p);
    ParsedEndsInM(s);
    AssembledUnquoted(p);
    ConvertParsed(s, PiecesStamp(p).value);
  }

  /** A long form naming a month, ending in "am" or "pm", has no quotes to
      strip. */
  lemma AssembledUnquoted(p: Pieces)
    requires Shaped(p) && MonthNumber(p.month) > 0 && EndsInM(Assemble(p))
    ensures Strip(Assemble(p), '"') == Assemble(p)
  {
    var s := Assemble(p);
    MonthWordUnquoted(p.month);
    assert s[0] == p.month[0];
    MeridiemNotZ(s);
    StripUnchanged(s, '"');
  }

  lemma MonthWordUnquoted(w: string)
    requires |w| > 0 && MonthNumber(w) > 0
    ensures w[0] != '"'
  {
    var m := MonthNumber(w);
    assert LowerStr(w)[0] == Lower(w[0]);
    MonthKeyInitials(m - 1);
  }

  lemma MonthKeyInitials(k: int)
    requires 0 <= k < 12
    ensures MonthKeys[k][0] != '"'
  {
    var initials := "jfmamjjasond";
    assert forall j :: 0 <= j < 12 ==> MonthKeys[j][0] == initials[j];
  }

  /** Padded fields and lower case convert as well: "july 06, 2025 at
      02:30pm" becomes "2025-07-06T14:30:00Z". */
  lemma ConvertPaddedExample()
    ensures ConvertToIso("july 06, 2025 at 02:30pm") == "2025-07-06T14:30:00Z"
  {
    var p := PaddedPieces();
    var d: Stamp := DateTime(2025, 7, 6, 14, 30, 0);
    PaddedShaped(p);
    PaddedStamp(p);
    AssembledContainsAt(p);
    ConvertAssembled(p);
    PaddedText(p);
    ExampleFormat(d);
  }

  function PaddedPieces(): Pieces {
    Pieces("july", " ", "06", " ", "2025", " ", "at", " ", "02", "30", "pm")
  }

  lemma PaddedShaped(p: Pieces)
    requires p == PaddedPieces()
    ensures Shaped(p)
  {
    assert IsDigits(p.day) && IsDigits(p.year) && IsDigits(p.hour) && IsDigits(p.minute);
    assert IsSpace(' ');
  }

  lemma PaddedStamp(p: Pieces)
    requires p == PaddedPieces() && Shaped(p)
    ensures PiecesStamp(p) == Some(DateTime(2025, 7, 6, 14, 30, 0))
  {
    PaddedWords(p);
    PaddedNumbers(p);
    assert To24(2, true) == 14;
  }

  lemma PaddedWords(p: Pieces)
    requires p == PaddedPieces()
    ensures MonthNumber(p.month) == 7 && LowerStr(p.at) == "at" && Meridiem(p.tail) == Some(true)
  {
    assert LowerStr("july") == MonthKeys[6];
    MonthKeyLookup(7);
    assert LowerStr("at") == "at";
    assert LowerStr("pm") == "pm";
  }

  lemma PaddedNumbers(p: Pieces)
    requires p == PaddedPieces() && Shaped(p)
    ensures DigitsValue(p.hour) == 2 && DigitsValue(p.minute) == 30
    ensures DigitsValue(p.day) == 6 && DigitsValue(p.year) == 2025
  {
    assert Pad4(2025) == "2025";
    assert Pad2(6) == "06" && Pad2(2) == "02" && Pad2(30) == "30";
  }

  lemma PaddedText(p: Pieces)
    requires p == PaddedPieces()
    ensures Assemble(p) == "july 06, 2025 at 02:30pm"
  {
    assert Assemble(p) == "july" + (" " + ("06" + ("," + (" " + ("2025" + (" " + ("at" + (" " +
      ("02" + (":" + ("30" + "pm")))))))))));
  }

  /** With single spaces around a lower-case "at", the text passes the
      converter's `" at " in date_str` test. */
  lemma AssembledContainsAt(p: Pieces)
    requires p.sp3 == " " && p.at == "at" && p.sp4 == " "
    ensures Contains(Assemble(p), " at ")
  {
    var t9 := p.hour + (":" + (p.minute + p.tail));
    var t6 := p.sp3 + (p.at + (p.sp4 + t9));
    assert t6 == " at " + t9;
    assert t6[..4] == " at ";
    var t5 := p.year + t6;
    ContainsAfter(p.year, t6, " at ");
    ContainsAfter(p.sp2, t5, " at ");
    ContainsAfter(",", p.sp2 + t5, " at ");
    ContainsAfter(p.day, "," + (p.sp2 + t5), " at ");
    ContainsAfter(p.sp1, p.day + ("," + (p.sp2 + t5)), " at ");
    ContainsAfter(p.month, p.sp1 + (p.day + ("," + (p.sp2 + t5))), " at ");
  }

  lemma {:induction false} ContainsAfter(a: string, b: string, pat: string)
    requires Contains(b, pat)
    ensures Contains(a + b, pat)
    decreases |a|
  {
    if |a| > 0 {
      ContainsAfter(a[1..], b, pat);
      assert (a + b)[1..] == a[1..] + b;
    } else {
      assert a + b == b;
    }
  }
}
