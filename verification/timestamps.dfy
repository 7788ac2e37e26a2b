/** Calendar timestamps and their canonical text form `YYYY-MM-DDTHH:MM:SSZ`,
    which both scripts produce with `strftime("%Y-%m-%dT%H:%M:%SZ")`. Writing
    converts no time zone: the fields are printed as they are and the trailing
    `Z` is a literal. Reading the text back, pandas takes the `Z` as UTC. */
module Timestamps {
  import opened Options
  import opened Text

  datatype DateTime = DateTime(year: int, month: int, day: int, hour: int, minute: int, second: int)

  predicate IsLeapYear(y: int) {
    y % 4 == 0 && (y % 100 != 0 || y % 400 == 0)
  }

  function DaysInMonth(y: int, m: int): (n: int)
    requires 1 <= m <= 12
    ensures 28 <= n <= 31
  {
    if m == 2 then (if IsLeapYear(y) then 29 else 28)
    else if m == 4 || m == 6 || m == 9 || m == 11 then 30
    else 31
  }

  /** A date and time Python's `datetime` accepts (years 1 to 9999; pandas
      timestamps lie inside that range), with whole seconds. */
  predicate Valid(d: DateTime) {
    && 1 <= d.year <= 9999
    && 1 <= d.month <= 12
    && 1 <= d.day <= DaysInMonth(d.year, d.month)
    && 0 <= d.hour < 24
    && 0 <= d.minute < 60
    && 0 <= d.second < 60
  }

  type Stamp = d: DateTime | Valid(d) witness DateTime(1970, 1, 1, 0, 0, 0)

  /** The shape of a canonical timestamp string. */
  predicate IsCanonical(s: string) {
    && |s| == 20
    && IsDigits(s[0..4]) && s[4] == '-' && IsDigits(s[5..7]) && s[7] == '-'
    && IsDigits(s[8..10]) && s[10] == 'T' && IsDigits(s[11..13]) && s[13] == ':'
    && IsDigits(s[14..16]) && s[16] == ':' && IsDigits(s[17..19]) && s[19] == 'Z'
  }

  /** `strftime("%Y-%m-%dT%H:%M:%SZ")`. */
  function FormatIso(d: Stamp): (r: string)
    ensures IsCanonical(r)
    ensures 'T' in r && r[|r| - 1] == 'Z'
    ensures r[17..19] == Pad2(d.second)
  {
    var r := Pad4(d.year) + "-" + Pad2(d.month) + "-" + Pad2(d.day) + "T" +
             Pad2(d.hour) + ":" + Pad2(d.minute) + ":" + Pad2(d.second) + "Z";
    FormatIsoFields(d, r);
    r
  }

  lemma FormatIsoFields(d: Stamp, r: string)
    requires r == Pad4(d.year) + "-" + Pad2(d.month) + "-" + Pad2(d.day) + "T" +
                  Pad2(d.hour) + ":" + Pad2(d.minute) + ":" + Pad2(d.second) + "Z"
    ensures |r| == 20
    ensures r[0..4] == Pad4(d.year) && r[5..7] == Pad2(d.month) && r[8..10] == Pad2(d.day)
    ensures r[11..13] == Pad2(d.hour) && r[14..16] == Pad2(d.minute) && r[17..19] == Pad2(d.second)
    ensures r[4] == '-' && r[7] == '-' && r[10] == 'T' && r[13] == ':' && r[16] == ':' && r[19] == 'Z'
  {
    var date := Pad4(d.year) + "-" + Pad2(d.month) + "-" + Pad2(d.day);
    var time := Pad2(d.hour) + ":" + Pad2(d.minute) + ":" + Pad2(d.second);
    assert r == date + "T" + time + "Z";
    DateFields(d, date);
    TimeFields(d, time);
    PlaceFields(date, time, r);
  }

  lemma DateFields(d: Stamp, date: string)
    requires date == Pad4(d.year) + "-" + Pad2(d.month) + "-" + Pad2(d.day)
    ensures |date| == 10
    ensures date[0..4] == Pad4(d.year) && date[5..7] == Pad2(d.month) && date[8..10] == Pad2(d.day)
    ensures date[4] == '-' && date[7] == '-'
  {
  }

  lemma TimeFields(d: Stamp, time: string)
    requires time == Pad2(d.hour) + ":" + Pad2(d.minute) + ":" + Pad2(d.second)
    ensures |time| == 8
    ensures time[0..2] == Pad2(d.hour) && time[3..5] == Pad2(d.minute) && time[6..8] == Pad2(d.second)
    ensures time[2] == ':' && time[5] == ':'
  {
  }

  lemma PlaceFields(date: string, time: string, r: string)
    requires |date| == 10 && |time| == 8 && r == date + "T" + time + "Z"
    ensures |r| == 20 && r[10] == 'T' && r[19] == 'Z'
    ensures forall i, j :: 0 <= i <= j <= 10 ==> r[i..j] == date[i..j]
    ensures forall i, j :: 0 <= i <= j <= 8 ==> r[11 + i..11 + j] == time[i..j]
    ensures forall i :: 0 <= i < 10 ==> r[i] == date[i]
    ensures forall i :: 0 <= i < 8 ==> r[11 + i] == time[i]
  {
  }

  /** Reads a canonical timestamp string back; `None` for anything that does
      not have the shape or names no valid date. */
  function ParseIso(s: string): Option<Stamp> {
    if !IsCanonical(s) then None
    else
      var d := DateTime(DigitsValue(s[0..4]), DigitsValue(s[5..7]), DigitsValue(s[8..10]),
                        DigitsValue(s[11..13]), DigitsValue(s[14..16]), DigitsValue(s[17..19]));
      if Valid(d) then Some(d) else None
  }

  /** Formatting loses nothing: the canonical string reads back as the
      timestamp it was made from. */
  lemma ParseFormatIso(d: Stamp)
    ensures ParseIso(FormatIso(d)) == Some(d)
  {
    FormatIsoFields(d, FormatIso(d));
  }

  /** Every string `ParseIso` accepts is the canonical rendering of what it
      reads: canonical strings and valid timestamps are in one-to-one
      correspondence. */
  lemma FormatParseIso(s: string)
    requires ParseIso(s).Some?
    ensures FormatIso(ParseIso(s).value) == s
  {
    var d := ParseIso(s).value;
    var r := FormatIso(d);
    FormatIsoFields(d, r);
    Pad4OfDigits(s[0..4]);
    Pad2OfDigits(s[5..7]);
    Pad2OfDigits(s[8..10]);
    Pad2OfDigits(s[11..13]);
    Pad2OfDigits(s[14..16]);
    Pad2OfDigits(s[17..19]);
    assert forall i | 0 <= i < 20 :: r[i] == s[i] by {
      forall i | 0 <= i < 20
        ensures r[i] == s[i]
      {
        if i < 4 { assert r[i] == r[0..4][i]; assert s[i] == s[0..4][i]; }
        else if 5 <= i < 7 { assert r[i] == r[5..7][i - 5]; assert s[i] == s[5..7][i - 5]; }
        else if 8 <= i < 10 { assert r[i] == r[8..10][i - 8]; assert s[i] == s[8..10][i - 8]; }
        else if 11 <= i < 13 { assert r[i] == r[11..13][i - 11]; assert s[i] == s[11..13][i - 11]; }
        else if 14 <= i < 16 { assert r[i] == r[14..16][i - 14]; assert s[i] == s[14..16][i - 14]; }
        else if 17 <= i < 19 { assert r[i] == r[17..19][i - 17]; assert s[i] == s[17..19][i - 17]; }
      }
    }
  }
}
