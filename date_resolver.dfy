/**
 * The date resolver (`cleanDateText` and `parseDate`, app.js:634-688): turns
 * a free-text date label into an instant in milliseconds, or None.
 *
 * The general string parse `new Date(string)` is implementation-defined; it
 * is a parameter here (`generalParse`, None standing for an invalid date).
 * The numeric fallbacks are modelled exactly, including the roll-over of
 * out-of-range months and days that `Date.UTC` performs.
 */
module DateResolver {
  import opened Common
  import opened Text
  import opened Calendar

  /** `cleanDateText`: drop parenthetical remarks, then normalise whitespace. */
  function CleanDateText(text: string): (r: string)
    ensures IsNormalized(r)
    ensures |r| <= |text|
  {
    NormalizeWhitespace(StripDelimited(text, '(', ')'))
  }

  /** The cleaned label is the words left outside parentheses, separated by single spaces. */
  lemma CleanDateTextWords(text: string)
    ensures CleanDateText(text) == Join(Words(StripDelimited(text, '(', ')')), " ")
  {
    NormalizeIsJoinedWords(StripDelimited(text, '(', ')'));
  }

  /** A label without parenthetical remarks is cleaned to its words, separated by single spaces. */
  lemma CleanDateTextNoRemarks(text: string)
    requires forall i, j :: 0 <= i < j < |text| && text[i] == '(' ==> text[j] != ')'
    ensures CleanDateText(text) == Join(Words(text), " ")
  {
    StripDelimitedNoGroup(text, '(', ')');
    CleanDateTextWords(text);
  }

  /** The characters `/[^0-9/.-]/g` keeps. */
  predicate IsDateChar(c: char) {
    IsDigit(c) || c == '/' || c == '.' || c == '-'
  }

  /** `s.replace(/[^0-9/.-]/g, "")`: the date characters of `s`, in order. */
  function KeepDateChars(s: string): (r: string)
    ensures forall i :: 0 <= i < |r| ==> IsDateChar(r[i])
    ensures |r| <= |s|
    ensures r == [] <==> forall i :: 0 <= i < |s| ==> !IsDateChar(s[i])
    ensures (forall i :: 0 <= i < |s| ==> IsDateChar(s[i])) ==> r == s
  {
    if s == [] then []
    else if IsDateChar(s[0]) then [s[0]] + KeepDateChars(s[1..])
    else
      var rest := KeepDateChars(s[1..]);
      assert (forall i :: 0 <= i < |s| ==> !IsDateChar(s[i])) <==>
             (forall i :: 0 <= i < |s[1..]| ==> !IsDateChar(s[1..][i]));
      rest
  }

  /** The characters are filtered one by one: the date characters of a concatenation are those of each part. */
  lemma {:induction false} KeepDateCharsAppend(a: string, b: string)
    ensures KeepDateChars(a + b) == KeepDateChars(a) + KeepDateChars(b)
    decreases |a|
  {
    if a == [] {
      assert a + b == b;
    } else {
      assert (a + b)[0] == a[0] && (a + b)[1..] == a[1..] + b;
      KeepDateCharsAppend(a[1..], b);
    }
  }

  predicate IsSeparator(c: char) {
    c == '/' || c == '.' || c == '-'
  }

  /** Number of consecutive digits in `s` from index `p`. */
  function DigitRun(s: string, p: nat): (n: nat)
    requires p <= |s|
    ensures p + n <= |s|
    decreases |s| - p
  {
    if p < |s| && IsDigit(s[p]) then 1 + DigitRun(s, p + 1) else 0
  }

  /** The run is made of digits and is maximal: no digit follows it. */
  lemma {:induction false} DigitRunMaximal(s: string, p: nat)
    requires p <= |s|
    ensures forall i :: p <= i < p + DigitRun(s, p) ==> IsDigit(s[i])
    ensures p + DigitRun(s, p) < |s| ==> !IsDigit(s[p + DigitRun(s, p)])
    decreases |s| - p
  {
    if p < |s| && IsDigit(s[p]) {
      DigitRunMaximal(s, p + 1);
    }
  }

  /** `s[i..j]` is a non-empty run of digits. */
  predicate DigitsBetween(s: string, i: nat, j: nat) {
    i < j <= |s| && forall k :: i <= k < j ==> IsDigit(s[k])
  }

  /** The number the digits `s[i..j]` spell. */
  function GroupValue(s: string, i: nat, j: nat): (n: nat)
    requires DigitsBetween(s, i, j)
    ensures j - i <= 2 ==> n <= 99
    ensures j - i <= 4 ==> n <= 9999
  {
    assert forall k :: 0 <= k < j - i ==> s[i..j][k] == s[i + k];
    DigitsBound(s[i..j]);
    DecimalValue(s[i..j])
  }

  /** A digit run that ends at the end of `s` or before a non-digit is the whole run. */
  lemma DigitRunIs(s: string, p: nat, n: nat)
    requires p + n <= |s|
    requires forall k :: p <= k < p + n ==> IsDigit(s[k])
    requires p + n < |s| ==> !IsDigit(s[p + n])
    ensures DigitRun(s, p) == n
  {
    DigitRunMaximal(s, p);
    var m := DigitRun(s, p);
    assert p + m < |s| ==> !IsDigit(s[p + m]);
  }

  /** `n` digits from `p` make the run at least that long. */
  lemma DigitRunAtLeast(s: string, p: nat, n: nat)
    requires p + n <= |s|
    requires forall k :: p <= k < p + n ==> IsDigit(s[k])
    ensures DigitRun(s, p) >= n
  {
    DigitRunMaximal(s, p);
    var m := DigitRun(s, p);
    assert p + m < |s| ==> !IsDigit(s[p + m]);
  }

  /** A match of `/(\d{1,2})[\/.-](\d{1,2})[\/.-](\d{2,4})/` as (month, day, year). */
  datatype MonthDayYear = MonthDayYear(month: nat, day: nat, year: nat)

  /** A match of `/(\d{1,2})[\/.-](\d{4})/` as (month, year). */
  datatype MonthYear = MonthYear(month: nat, year: nat)

  /**
   * The M/D/Y pattern matches at `p` with groups of `a`, `b` and `c` digits:
   * one or two digits, a separator, one or two digits, a separator, then two
   * to four digits, and the year group stops short of four digits only where
   * no digit follows (the greedy `\d{2,4}`).
   */
  ghost predicate MonthDayYearShape(s: string, p: nat, a: nat, b: nat, c: nat) {
    && 1 <= a <= 2 && 1 <= b <= 2 && 2 <= c <= 4
    && DigitsBetween(s, p, p + a) && p + a < |s| && IsSeparator(s[p + a])
    && DigitsBetween(s, p + a + 1, p + a + 1 + b) && p + a + 1 + b < |s| && IsSeparator(s[p + a + 1 + b])
    && DigitsBetween(s, p + a + b + 2, p + a + b + 2 + c)
    && (c < 4 && p + a + b + 2 + c < |s| ==> !IsDigit(s[p + a + b + 2 + c]))
  }

  /** The month/year pattern matches at `p` with a month group of `a` digits: a separator and four digits follow. */
  ghost predicate MonthYearShape(s: string, p: nat, a: nat) {
    && 1 <= a <= 2
    && DigitsBetween(s, p, p + a) && p + a < |s| && IsSeparator(s[p + a])
    && DigitsBetween(s, p + a + 1, p + a + 5)
  }

  /** The (month, day, year) read from the three groups of an M/D/Y match. */
  function MonthDayYearGroups(s: string, p: nat, a: nat, b: nat, c: nat): (m: MonthDayYear)
    requires MonthDayYearShape(s, p, a, b, c)
    ensures m.month <= 99 && m.day <= 99 && m.year <= 9999
  {
    MonthDayYear(GroupValue(s, p, p + a), GroupValue(s, p + a + 1, p + a + 1 + b),
                 GroupValue(s, p + a + b + 2, p + a + b + 2 + c))
  }

  /**
   * The M/D/Y pattern tried at index `p` exactly. The one- or two-digit
   * groups must be followed by a separator, so each takes the whole digit
   * run from its start; the year group takes up to four digits of its run.
   */
  function MonthDayYearAt(s: string, p: nat): (r: Option<MonthDayYear>)
    requires p <= |s|
    ensures r.Some? ==> r.value.day <= 99 && r.value.month <= 99 && r.value.year <= 9999
    ensures r.Some? ==> exists a, b, c :: MonthDayYearShape(s, p, a, b, c) && r.value == MonthDayYearGroups(s, p, a, b, c)
  {
    var a := DigitRun(s, p);
    if 1 <= a <= 2 && p + a < |s| && IsSeparator(s[p + a]) then
      var b := DigitRun(s, p + a + 1);
      if 1 <= b <= 2 && p + a + 1 + b < |s| && IsSeparator(s[p + a + 1 + b]) then
        var c := Min(DigitRun(s, p + a + b + 2), 4);
        if c >= 2 then
          RunsGiveShape(s, p, a, b, c);
          Some(MonthDayYearGroups(s, p, a, b, c))
        else None
      else None
    else None
  }

  /** Digit runs of the right lengths, each but the last followed by a separator, make the M/D/Y shape. */
  lemma RunsGiveShape(s: string, p: nat, a: nat, b: nat, c: nat)
    requires p <= |s| && a == DigitRun(s, p) && 1 <= a <= 2 && p + a < |s| && IsSeparator(s[p + a])
    requires b == DigitRun(s, p + a + 1) && 1 <= b <= 2 && p + a + 1 + b < |s| && IsSeparator(s[p + a + 1 + b])
    requires c == Min(DigitRun(s, p + a + b + 2), 4) && c >= 2
    ensures MonthDayYearShape(s, p, a, b, c)
  {
    DigitRunMaximal(s, p);
    DigitRunMaximal(s, p + a + 1);
    DigitRunMaximal(s, p + a + b + 2);
  }

  /** Wherever the M/D/Y shape holds at `p`, the match is made of its three groups. */
  lemma MonthDayYearAtShape(s: string, p: nat, a: nat, b: nat, c: nat)
    requires p <= |s| && MonthDayYearShape(s, p, a, b, c)
    ensures MonthDayYearAt(s, p) == Some(MonthDayYearGroups(s, p, a, b, c))
  {
    ShapeRuns(s, p, a, b, c);
  }

  /** The groups of an M/D/Y shape are what the digit runs from their starts give. */
  lemma ShapeRuns(s: string, p: nat, a: nat, b: nat, c: nat)
    requires p <= |s| && MonthDayYearShape(s, p, a, b, c)
    ensures DigitRun(s, p) == a && DigitRun(s, p + a + 1) == b && Min(DigitRun(s, p + a + b + 2), 4) == c
  {
    DigitRunIs(s, p, a);
    DigitRunIs(s, p + a + 1, b);
    var p3 := p + a + b + 2;
    DigitRunAtLeast(s, p3, c);
    if c < 4 {
      DigitRunIs(s, p3, c);
    }
  }

  /** The (month, year) read from the two groups of a month/year match. */
  function MonthYearGroups(s: string, p: nat, a: nat): (m: MonthYear)
    requires MonthYearShape(s, p, a)
    ensures m.month <= 99 && m.year <= 9999
  {
    MonthYear(GroupValue(s, p, p + a), GroupValue(s, p + a + 1, p + a + 5))
  }

  /** The month/year pattern tried at index `p` exactly. */
  function MonthYearAt(s: string, p: nat): (r: Option<MonthYear>)
    requires p <= |s|
    ensures r.Some? ==> r.value.month <= 99 && r.value.year <= 9999
    ensures r.Some? ==> exists a :: MonthYearShape(s, p, a) && r.value == MonthYearGroups(s, p, a)
  {
    var a := DigitRun(s, p);
    if 1 <= a <= 2 && p + a < |s| && IsSeparator(s[p + a]) then
      if DigitRun(s, p + a + 1) >= 4 then
        DigitRunMaximal(s, p);
        DigitRunMaximal(s, p + a + 1);
        assert MonthYearShape(s, p, a);
        Some(MonthYearGroups(s, p, a))
      else None
    else None
  }

  /** Wherever the month/year shape holds at `p`, the match is made of its two groups. */
  lemma MonthYearAtShape(s: string, p: nat, a: nat)
    requires p <= |s| && MonthYearShape(s, p, a)
    ensures MonthYearAt(s, p) == Some(MonthYearGroups(s, p, a))
  {
    DigitRunIs(s, p, a);
    DigitRunAtLeast(s, p + a + 1, 4);
  }

  /** `String.prototype.match` with the M/D/Y pattern: the leftmost match at or after `p`. */
  function FindMonthDayYear(s: string, p: nat): Option<MonthDayYear>
    requires p <= |s|
    decreases |s| - p
  {
    if MonthDayYearAt(s, p).Some? then MonthDayYearAt(s, p)
    else if p < |s| then FindMonthDayYear(s, p + 1)
    else None
  }

  /** `String.prototype.match` with the month/year pattern: the leftmost match at or after `p`. */
  function FindMonthYear(s: string, p: nat): Option<MonthYear>
    requires p <= |s|
    decreases |s| - p
  {
    if MonthYearAt(s, p).Some? then MonthYearAt(s, p)
    else if p < |s| then FindMonthYear(s, p + 1)
    else None
  }

  /** An n-digit decimal is below 10^n. */
  lemma {:induction false} DigitsBound(digits: string)
    requires forall i :: 0 <= i < |digits| ==> IsDigit(digits[i])
    ensures |digits| <= 1 ==> DecimalValue(digits) <= 9
    ensures |digits| <= 2 ==> DecimalValue(digits) <= 99
    ensures |digits| <= 3 ==> DecimalValue(digits) <= 999
    ensures |digits| <= 4 ==> DecimalValue(digits) <= 9999
    decreases |digits|
  {
    if digits != [] {
      DigitsBound(digits[..|digits| - 1]);
    }
  }

  /** Two-digit years of the M/D/Y pattern are taken as 20xx (app.js:666-668). */
  function CenturyYear(year: nat): nat {
    if year < 100 then year + 2000 else year
  }

  /** The M/D/Y fallback (app.js:661-674), then the month/year fallback (app.js:676-685). */
  function NumericFallback(numericOnly: string): Option<int> {
    var fromMdy :=
      match FindMonthDayYear(numericOnly, 0)
      case Some(MonthDayYear(month, day, year)) => MakeDate(CenturyYear(year), month - 1, day)
      case None => None;
    if fromMdy.Some? then fromMdy
    else
      match FindMonthYear(numericOnly, 0)
      case Some(MonthYear(month, year)) => MakeDate(year, month - 1, 1)
      case None => None
  }

  /** The date characters that remain of the cleaned label (app.js:651). */
  function NumericOnly(text: string): string {
    Trim(KeepDateChars(CleanDateText(text)))
  }

  /** `parseDate` (app.js:640-688), the first success of the cascade winning. */
  function ParseDate(text: string, generalParse: string -> Option<int>): (r: Option<int>)
    ensures text == "" ==> r.None?
    ensures text != "" && generalParse(CleanDateText(text)).Some? ==> r == generalParse(CleanDateText(text))
    ensures (text != "" && generalParse(CleanDateText(text)).None? && NumericOnly(text) != ""
             && generalParse(NumericOnly(text)).Some?) ==> r == generalParse(NumericOnly(text))
  {
    if text == "" then None
    else
      var cleaned := CleanDateText(text);
      if generalParse(cleaned).Some? then generalParse(cleaned)
      else
        var numericOnly := NumericOnly(text);
        if numericOnly == "" then None
        else if generalParse(numericOnly).Some? then generalParse(numericOnly)
        else NumericFallback(numericOnly)
  }

  /** Once both general parses have failed, the label resolves by the numeric fallbacks alone. */
  lemma ReachesNumericFallback(text: string, generalParse: string -> Option<int>)
    requires text != ""
    requires generalParse(CleanDateText(text)).None?
    requires generalParse(NumericOnly(text)).None?
    ensures ParseDate(text, generalParse) == NumericFallback(NumericOnly(text))
  {
    if NumericOnly(text) == "" {
      assert MonthDayYearAt("", 0).None?;
      assert MonthYearAt("", 0).None?;
    }
  }

  /** Without a successful general parse, a label with no digit, '/', '.' or '-' resolves to nothing. */
  lemma NoDateCharactersMeansNoDate(text: string, generalParse: string -> Option<int>)
    requires generalParse(CleanDateText(text)).None?
    requires forall i :: 0 <= i < |CleanDateText(text)| ==> !IsDateChar(CleanDateText(text)[i])
    ensures ParseDate(text, generalParse).None?
  {
    assert KeepDateChars(CleanDateText(text)) == [];
  }

  /** The leftmost M/D/Y match has month and day below 100 and a year below 10000. */
  lemma {:induction false} MatchBounds(s: string, p: nat)
    requires p <= |s|
    ensures FindMonthDayYear(s, p).Some? ==>
      var v := FindMonthDayYear(s, p).value; v.month <= 99 && v.day <= 99 && v.year <= 9999
    decreases |s| - p
  {
    if MonthDayYearAt(s, p).None? && p < |s| {
      MatchBounds(s, p + 1);
    }
  }

  /** Dates the M/D/Y fallback builds from years 100..9999 are always valid time values. */
  lemma MonthDayYearIsValid(y: int, month0: int, day: int)
    requires 100 <= y <= 9999 && -1 <= month0 <= 98 && 0 <= day <= 99
    ensures MakeDate(y, month0, day) == Some(DayStartMs(MakeDay(y, month0, day)))
  {
    var k := 12 * (y + month0 / 12) + month0 % 12;
    assert 12 * 99 <= k <= 12 * 10008 + 11;
    MonthStartBounds(k);
  }

  /**
   * An M/D/Y match always yields a date: UTC midnight of that day, with
   * two-digit years in the 2000s and out-of-range months and days rolled over.
   */
  lemma {:induction false} MonthDayYearResolves(s: string, month: nat, day: nat, year: nat)
    requires FindMonthDayYear(s, 0) == Some(MonthDayYear(month, day, year))
    ensures NumericFallback(s) == Some(DayStartMs(MakeDay(CenturyYear(year), month - 1, day)))
  {
    MatchBounds(s, 0);
    MonthDayYearIsValid(CenturyYear(year), month - 1, day);
  }

  /**
   * Without an M/D/Y match, the numeric fallbacks give the first of the
   * month of a month/year match (in UTC), or nothing when there is none.
   */
  lemma MonthYearResolves(s: string)
    requires FindMonthDayYear(s, 0).None?
    ensures FindMonthYear(s, 0).None? ==> NumericFallback(s).None?
    ensures FindMonthYear(s, 0).Some? ==>
      NumericFallback(s) == MakeDate(FindMonthYear(s, 0).value.year, FindMonthYear(s, 0).value.month - 1, 1)
  {
  }
}
