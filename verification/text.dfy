/** Character and string vocabulary: Python's whitespace and digit classes,
    ASCII case folding, `str.strip(c)`, substring search, `str.replace`,
    fixed-width decimal rendering and code-point string order. */
module Text {

  /** `str.isspace()`, which is also what `\s` matches in a str pattern of
      Python's `re` module. */
  predicate IsSpace(c: char) {
    var n := c as int;
    n == 0x20 || 0x09 <= n <= 0x0D || 0x1C <= n <= 0x1F || n == 0x85 || n == 0xA0 ||
    n == 0x1680 || 0x2000 <= n <= 0x200A || n == 0x2028 || n == 0x2029 ||
    n == 0x202F || n == 0x205F || n == 0x3000
  }

  predicate IsDigit(c: char) {
    '0' <= c <= '9'
  }

  predicate IsDigits(s: string) {
    forall i :: 0 <= i < |s| ==> IsDigit(s[i])
  }

  function DigitValue(c: char): (d: int)
    requires IsDigit(c)
    ensures 0 <= d < 10
  {
    c as int - '0' as int
  }

  function Digit(d: int): (c: char)
    requires 0 <= d < 10
    ensures IsDigit(c) && DigitValue(c) == d
  {
    ('0' as int + d) as char
  }

  /** Length of the longest prefix of `s` whose characters all satisfy `p`. */
  function RunLength(s: string, p: char -> bool): (n: nat)
    ensures n <= |s|
    ensures forall i :: 0 <= i < n ==> p(s[i])
    ensures n < |s| ==> !p(s[n])
  {
    if |s| > 0 && p(s[0]) then 1 + RunLength(s[1..], p) else 0
  }

  function SpaceRun(s: string): nat {
    RunLength(s, IsSpace)
  }

  function DigitRun(s: string): nat {
    RunLength(s, IsDigit)
  }

  /** Length of the prefix before the first whitespace character. */
  function WordRun(s: string): nat {
    RunLength(s, c => !IsSpace(c))
  }

  /** The decimal value of a string of ASCII digits, as Python's `int()`. */
  function DigitsValue(s: string): (v: nat)
    requires IsDigits(s)
  {
    if |s| == 0 then 0 else 10 * DigitsValue(s[..|s| - 1]) + DigitValue(s[|s| - 1])
  }

  /** Two-digit zero-padded rendering, as `%02d`. */
  function Pad2(n: int): (r: string)
    requires 0 <= n < 100
    ensures |r| == 2 && IsDigits(r)
    ensures DigitsValue(r) == n
  {
    var r := [Digit(n / 10), Digit(n % 10)];
    DigitsValueOfTwo(r);
    r
  }

  /** Four-digit zero-padded rendering, as `%04d`. */
  function Pad4(n: int): (r: string)
    requires 0 <= n < 10000
    ensures |r| == 4 && IsDigits(r)
    ensures DigitsValue(r) == n
  {
    var hi := Pad2(n / 100);
    var lo := Pad2(n % 100);
    DigitsValueConcat2(hi, lo);
    hi + lo
  }

  /** Decimal rendering without padding, as `str(n)`, for n < 100. */
  function Decimal(n: int): (r: string)
    requires 0 <= n < 100
    ensures 1 <= |r| <= 2 && IsDigits(r)
    ensures DigitsValue(r) == n
    ensures |r| == 2 ==> r[0] != '0'
  {
    if n < 10 then [Digit(n)] else Pad2(n)
  }

  lemma DigitsValueBound(s: string)
    requires IsDigits(s) && |s| <= 4
    ensures |s| <= 2 ==> DigitsValue(s) < 100
    ensures DigitsValue(s) < 10000
  {
    if |s| > 0 {
      DigitsValueBound(s[..|s| - 1]);
    }
  }

  lemma DigitsValueOfTwo(s: string)
    requires |s| == 2 && IsDigits(s)
    ensures DigitsValue(s) == 10 * DigitValue(s[0]) + DigitValue(s[1])
  {
    var a := s[..1];
    assert a[..0] == [];
    assert DigitsValue(a) == DigitValue(s[0]);
  }

  /** Two digits are their own zero-padded rendering. */
  lemma Pad2OfDigits(s: string)
    requires |s| == 2 && IsDigits(s)
    ensures DigitsValue(s) < 100
    ensures Pad2(DigitsValue(s)) == s
  {
    DigitsValueOfTwo(s);
    var a, b := DigitValue(s[0]), DigitValue(s[1]);
    var v := 10 * a + b;
    assert v / 10 == a && v % 10 == b;
    assert Digit(a) == s[0] && Digit(b) == s[1];
  }

  /** Four digits are their own zero-padded rendering. */
  lemma Pad4OfDigits(s: string)
    requires |s| == 4 && IsDigits(s)
    ensures DigitsValue(s) < 10000
    ensures Pad4(DigitsValue(s)) == s
  {
    var hi := s[..2];
    var lo := s[2..];
    assert s == hi + lo;
    DigitsValueConcat2(hi, lo);
    Pad2OfDigits(hi);
    Pad2OfDigits(lo);
    var v := 100 * DigitsValue(hi) + DigitsValue(lo);
    assert v / 100 == DigitsValue(hi) && v % 100 == DigitsValue(lo);
  }

  lemma DigitsValueConcat2(a: string, b: string)
    requires IsDigits(a) && |b| == 2 && IsDigits(b)
    ensures IsDigits(a + b)
    ensures DigitsValue(a + b) == 100 * DigitsValue(a) + DigitsValue(b)
  {
    var ab := a + b;
    var ax := a + [b[0]];
    assert ab[..|ab| - 1] == ax;
    assert ax[..|ax| - 1] == a;
    assert DigitsValue(ax) == 10 * DigitsValue(a) + DigitValue(b[0]);
    assert DigitsValue(ab) == 10 * DigitsValue(ax) + DigitValue(b[1]);
    DigitsValueOfTwo(b);
  }

  /** ASCII lower-casing, the part of Python's case folding the model keeps. */
  function Lower(c: char): char {
    if 'A' <= c <= 'Z' then (c as int + 32) as char else c
  }

  /** `str.lower()` restricted to ASCII letters. */
  function LowerStr(s: string): (r: string)
    ensures |r| == |s|
    ensures forall i :: 0 <= i < |s| ==> r[i] == Lower(s[i])
  {
    if |s| == 0 then [] else [Lower(s[0])] + LowerStr(s[1..])
  }

  /** Python's `s.strip(c)`: every leading and trailing `c` is removed. */
  function Strip(s: string, c: char): (r: string)
    ensures |r| <= |s|
    ensures exists i :: 0 <= i <= |s| - |r| && r == s[i..i + |r|] &&
                        AllChar(s[..i], c) && AllChar(s[i + |r|..], c)
    ensures |r| == 0 || (r[0] != c && r[|r| - 1] != c)
  {
    var i := RunLength(s, x => x == c);
    var t := s[i..];
    var j := TrailingRun(t, c);
    var r := t[..|t| - j];
    assert r == s[i..i + |r|];
    assert AllChar(s[..i], c) && AllChar(s[i + |r|..], c);
    r
  }

  predicate AllChar(s: string, c: char) {
    forall k :: 0 <= k < |s| ==> s[k] == c
  }

  /** Number of copies of `c` at the end of `s`. */
  function TrailingRun(s: string, c: char): (n: nat)
    ensures n <= |s|
    ensures forall k :: |s| - n <= k < |s| ==> s[k] == c
    ensures n < |s| ==> s[|s| - n - 1] != c
  {
    if |s| > 0 && s[|s| - 1] == c then 1 + TrailingRun(s[..|s| - 1], c) else 0
  }

  /** Stripping is a no-op on a string that neither starts nor ends with the
      stripped character; in particular `Strip` is idempotent. */
  lemma StripUnchanged(s: string, c: char)
    requires |s| == 0 || (s[0] != c && s[|s| - 1] != c)
    ensures Strip(s, c) == s
  {
  }

  lemma StripIdempotent(s: string, c: char)
    ensures Strip(Strip(s, c), c) == Strip(s, c)
  {
    StripUnchanged(Strip(s, c), c);
  }

  predicate StartsWith(s: string, pat: string) {
    |pat| <= |s| && s[..|pat|] == pat
  }

  /** `pat in s` for strings. */
  predicate Contains(s: string, pat: string)
    decreases |s|
  {
    StartsWith(s, pat) || (|s| > 0 && Contains(s[1..], pat))
  }

  /** Python's `s.replace(pat, rep)`: occurrences are found left to right and
      never overlap. */
  function ReplaceAll(s: string, pat: string, rep: string): (r: string)
    requires |pat| > 0
    ensures !Contains(s, pat) ==> r == s
    decreases |s|
  {
    if |s| == 0 then s
    else if StartsWith(s, pat) then rep + ReplaceAll(s[|pat|..], pat, rep)
    else [s[0]] + ReplaceAll(s[1..], pat, rep)
  }

  /** Python's `s.split(pat)`: the pieces between non-overlapping
      left-to-right occurrences of `pat`. */
  function Split(s: string, pat: string): (r: seq<string>)
    requires |pat| > 0
    ensures |r| >= 1
    ensures |r[0]| <= |s| && r[0] == s[..|r[0]|]
    decreases |s|
  {
    if |s| == 0 then [[]]
    else if StartsWith(s, pat) then [[]] + Split(s[|pat|..], pat)
    else
      var t := Split(s[1..], pat);
      [[s[0]] + t[0]] + t[1..]
  }

  /** Python's `sep.join(pieces)`. */
  function Join(pieces: seq<string>, sep: string): string
    requires |pieces| >= 1
  {
    if |pieces| == 1 then pieces[0] else pieces[0] + sep + Join(pieces[1..], sep)
  }

  /** Joining the pieces again with the separator gives back the string. */
  lemma {:induction false} SplitJoin(s: string, pat: string)
    requires |pat| > 0
    ensures Join(Split(s, pat), pat) == s
    decreases |s|
  {
    if |s| == 0 {
    } else if StartsWith(s, pat) {
      SplitJoin(s[|pat|..], pat);
      SplitJoinAtPattern(s, pat);
    } else {
      SplitJoin(s[1..], pat);
      SplitJoinElsewhere(s, pat);
    }
  }

  lemma SplitJoinAtPattern(s: string, pat: string)
    requires |pat| > 0 && |s| > 0 && StartsWith(s, pat)
    requires Join(Split(s[|pat|..], pat), pat) == s[|pat|..]
    ensures Join(Split(s, pat), pat) == s
  {
    var u := Split(s[|pat|..], pat);
    SplitAtPattern(s, pat);
    JoinEmptyHead(u, pat);
    PatternThenRest(s, pat);
  }

  lemma JoinEmptyHead(u: seq<string>, sep: string)
    requires |u| >= 1
    ensures Join([[]] + u, sep) == sep + Join(u, sep)
  {
    JoinCons([], u, sep);
  }

  lemma PatternThenRest(s: string, pat: string)
    requires StartsWith(s, pat)
    ensures pat + s[|pat|..] == s
  {
    assert s == s[..|pat|] + s[|pat|..];
  }

  lemma SplitAtPattern(s: string, pat: string)
    requires |pat| > 0 && |s| > 0 && StartsWith(s, pat)
    ensures Split(s, pat) == [[]] + Split(s[|pat|..], pat)
  {
  }

  lemma SplitElsewhere(s: string, pat: string)
    requires |pat| > 0 && |s| > 0 && !StartsWith(s, pat)
    ensures Split(s, pat) == [[s[0]] + Split(s[1..], pat)[0]] + Split(s[1..], pat)[1..]
  {
  }

  lemma SplitJoinElsewhere(s: string, pat: string)
    requires |pat| > 0 && |s| > 0 && !StartsWith(s, pat)
    requires Join(Split(s[1..], pat), pat) == s[1..]
    ensures Join(Split(s, pat), pat) == s
  {
    SplitElsewhere(s, pat);
    JoinStep(s[0], Split(s[1..], pat), pat);
    assert s == [s[0]] + s[1..];
  }

  lemma JoinStep(c: char, t: seq<string>, sep: string)
    requires |t| >= 1
    ensures Join([[c] + t[0]] + t[1..], sep) == [c] + Join(t, sep)
  {
    assert [t[0]] + t[1..] == t;
    JoinCons(t[0], t[1..], sep);
    JoinCons([c] + t[0], t[1..], sep);
    if |t| > 1 {
      var tail := Join(t[1..], sep);
      assert ([c] + t[0]) + sep + tail == [c] + (t[0] + sep + tail);
    }
  }

  lemma JoinCons(x: string, rest: seq<string>, sep: string)
    ensures Join([x] + rest, sep) == if |rest| == 0 then x else x + sep + Join(rest, sep)
  {
    if |rest| > 0 {
      assert ([x] + rest)[1..] == rest;
    }
  }

  /** `s.replace(pat, rep) == rep.join(s.split(pat))`: every occurrence of
      `pat` that splitting finds is replaced by `rep`, and nothing else
      changes. */
  lemma {:induction false} ReplaceIsJoinOfSplit(s: string, pat: string, rep: string)
    requires |pat| > 0
    ensures ReplaceAll(s, pat, rep) == Join(Split(s, pat), rep)
    decreases |s|
  {
    if |s| == 0 {
    } else if StartsWith(s, pat) {
      ReplaceIsJoinOfSplit(s[|pat|..], pat, rep);
      SplitAtPattern(s, pat);
      JoinEmptyHead(Split(s[|pat|..], pat), rep);
    } else {
      ReplaceIsJoinOfSplit(s[1..], pat, rep);
      SplitElsewhere(s, pat);
      JoinStep(s[0], Split(s[1..], pat), rep);
    }
  }

  /** No piece of a split contains the separator. */
  lemma {:induction false} SplitPiecesAvoidPattern(s: string, pat: string)
    requires |pat| > 0
    ensures forall i :: 0 <= i < |Split(s, pat)| ==> !Contains(Split(s, pat)[i], pat)
    decreases |s|
  {
    if |s| == 0 {
    } else if StartsWith(s, pat) {
      SplitPiecesAvoidPattern(s[|pat|..], pat);
    } else {
      SplitPiecesAvoidPattern(s[1..], pat);
      var t := Split(s[1..], pat);
      var first := [s[0]] + t[0];
      assert first[1..] == t[0];
    }
  }

  /** Code-point lexicographic order, which is how Python compares `str`. */
  predicate LexLe(a: string, b: string)
    decreases |a|
  {
    |a| == 0 || (|b| > 0 && (a[0] < b[0] || (a[0] == b[0] && LexLe(a[1..], b[1..]))))
  }

  lemma {:induction false} LexTotal(a: string, b: string)
    ensures LexLe(a, b) || LexLe(b, a)
    decreases |a|
  {
    if |a| > 0 && |b| > 0 && a[0] == b[0] {
      LexTotal(a[1..], b[1..]);
    }
  }

  lemma {:induction false} LexTransitive(a: string, b: string, c: string)
    requires LexLe(a, b) && LexLe(b, c)
    ensures LexLe(a, c)
    decreases |a|
  {
    if |a| > 0 && a[0] == b[0] && b[0] == c[0] {
      LexTransitive(a[1..], b[1..], c[1..]);
    }
  }
}
