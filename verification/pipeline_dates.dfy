/** The pipeline's `to_iso_format`: a missing value stays missing; anything
    else has every " at " replaced by a single space and is handed to
    `pd.to_datetime(..., errors="coerce")`, and what that parser accepts is
    written in the canonical form. Every failure, raised or coerced, becomes a
    missing value.

    `pd.to_datetime` is not modelled: its behaviour enters as the parameter
    `parse`, a partial function from text to a timestamp. */
module PipelineDates {
  import opened Options
  import opened Text
  import opened Timestamps

  /** The text handed to the parser: `str(val).replace(" at ", " ")`. */
  function Clean(s: string): string {
    ReplaceAll(s, " at ", " ")
  }

  /** `to_iso_format(val)`. A result is present exactly when the value was
      present and the parser accepted its cleaned text, and a present result
      is the canonical string that reads back as the parsed timestamp. */
  function ToIsoFormat(val: Option<string>, parse: string -> Option<Stamp>): (r: Option<string>)
    ensures r.Some? <==> val.Some? && parse(Clean(val.value)).Some?
    ensures r.Some? ==> IsCanonical(r.value) && ParseIso(r.value) == parse(Clean(val.value))
    ensures r.Some? ==> |r.value| == 20 && r.value[10] == 'T' && r.value[19] == 'Z'
  {
    match val
    case None => None
    case Some(s) =>
      match parse(Clean(s))
      case None => None
      case Some(d) =>
        ParseFormatIso(d);
        Some(FormatIso(d))
  }

  /** The replacement is Python's `str.replace`: the cleaned text is the
      input split at every non-overlapping " at ", rejoined with single
      spaces. */
  lemma CleanIsSplitJoin(s: string)
    ensures Clean(s) == Join(Split(s, " at "), " ")
    ensures Join(Split(s, " at "), " at ") == s
  {
    ReplaceIsJoinOfSplit(s, " at ", " ");
    SplitJoin(s, " at ");
  }

  /** A string without a space is not touched by the replacement. */
  lemma {:induction false} NoSpaceNoAt(s: string)
    requires forall i :: 0 <= i < |s| ==> s[i] != ' '
    ensures !Contains(s, " at ")
    decreases |s|
  {
    if |s| > 0 {
      assert !StartsWith(s, " at ") by {
        if 4 <= |s| {
          assert s[..4][0] == s[0];
        }
      }
      NoSpaceNoAt(s[1..]);
    }
  }

  lemma CanonicalHasNoSpace(s: string)
    requires IsCanonical(s)
    ensures forall i :: 0 <= i < |s| ==> s[i] != ' '
  {
    forall i | 0 <= i < |s|
      ensures s[i] != ' '
    {
      if i < 4 { assert s[i] == s[0..4][i]; }
      else if 5 <= i < 7 { assert s[i] == s[5..7][i - 5]; }
      else if 8 <= i < 10 { assert s[i] == s[8..10][i - 8]; }
      else if 11 <= i < 13 { assert s[i] == s[11..13][i - 11]; }
      else if 14 <= i < 16 { assert s[i] == s[14..16][i - 14]; }
      else if 17 <= i < 19 { assert s[i] == s[17..19][i - 17]; }
    }
  }

  /** Normalising twice is normalising once, provided the date parser reads
      the canonical rendering of every timestamp it produces back as that
      timestamp. */
  lemma ToIsoFormatIdempotent(val: Option<string>, parse: string -> Option<Stamp>)
    requires forall t, d :: parse(t) == Some(d) ==> parse(FormatIso(d)) == Some(d)
    ensures ToIsoFormat(ToIsoFormat(val, parse), parse) == ToIsoFormat(val, parse)
  {
    var r := ToIsoFormat(val, parse);
    if r.Some? {
      var d := parse(Clean(val.value)).value;
      assert r.value == FormatIso(d);
      CanonicalHasNoSpace(r.value);
      NoSpaceNoAt(r.value);
      assert Clean(r.value) == r.value;
    }
  }

  /** Whole years inside the range of a nanosecond pandas `Timestamp`
      (1677-09-21 to 2262-04-11); outside it `pd.to_datetime` with
      `errors="coerce"` gives `NaT`. */
  predicate InTimestampRange(d: Stamp) {
    1678 <= d.year <= 2261
  }

  /** A canonical string of a year the parser can represent is kept as it
      is, provided the parser reads such strings back as the timestamps
      they show. */
  lemma ToIsoFormatKeepsCanonical(s: string, parse: string -> Option<Stamp>)
    requires forall d: Stamp :: InTimestampRange(d) ==> parse(FormatIso(d)) == Some(d)
    requires ParseIso(s).Some? && InTimestampRange(ParseIso(s).value)
    ensures ToIsoFormat(Some(s), parse) == Some(s)
  {
    var d := ParseIso(s).value;
    FormatParseIso(s);
    CanonicalHasNoSpace(s);
    NoSpaceNoAt(s);
    assert parse(Clean(s)) == Some(d);
  }

  /** A canonical string of a year no nanosecond `Timestamp` reaches becomes
      missing, when the parser either rejects it or reads it as shown. */
  lemma ToIsoFormatDropsOutOfRange(s: string, parse: string -> Option<Stamp>)
    requires forall t :: parse(t).Some? ==> 1677 <= parse(t).value.year <= 2262
    requires parse(s).None? || parse(s) == ParseIso(s)
    requires ParseIso(s).Some? && (ParseIso(s).value.year < 1677 || ParseIso(s).value.year > 2262)
    ensures ToIsoFormat(Some(s), parse) == None
  {
    FormatParseIso(s);
    CanonicalHasNoSpace(s);
    NoSpaceNoAt(s);
    assert Clean(s) == s;
  }
}
