/**
 * The proleptic Gregorian calendar as ECMAScript's `Date` uses it: day
 * numbers counted from 1970-01-01, month starts with roll-over of
 * out-of-range months and days (`MakeDay`), the two-digit-year rule of
 * `Date.UTC` and the `Date` constructor, and the time-value range outside
 * which a `Date` is invalid (NaN).
 *
 * The application compares instants built in local time (`new Date(y, m, 1)`)
 * with instants built in UTC (`Date.UTC`); this model takes the local time
 * zone to be UTC, so both constructions are `MakeDate` below.
 */
module Calendar {
  import opened Common

  /** Milliseconds since the epoch at the start (midnight UTC) of a day number. */
  function DayStartMs(day: int): int {
    day * 86_400_000
  }

  /** The largest magnitude of a valid time value (TimeClip). */
  const MaxTimeValue: int := 8_640_000_000_000_000

  predicate IsLeapYear(y: int) {
    y % 4 == 0 && (y % 100 != 0 || y % 400 == 0)
  }

  function DaysInMonth(y: int, m: int): (n: int)
    requires 1 <= m <= 12
    ensures 28 <= n <= 31
  {
    if m == 2 then (if IsLeapYear(y) then 29 else 28)
    else if m == 4 || m == 6 || m == 9 || m == 11 then 30
    else 31
  }

  /** Month number of January 1970, the month of day 0; month m of year y is `12 * y + m - 1`. */
  const EpochMonth: int := 12 * 1970

  /**
   * Day number of the first day of month number `k`: each month starts
   * where the one before it ends, counting from January 1970.
   */
  function MonthStart(k: int): int
    decreases if k >= EpochMonth then k - EpochMonth else EpochMonth - k
  {
    if k == EpochMonth then 0
    else if k > EpochMonth then MonthStart(k - 1) + DaysInMonth((k - 1) / 12, (k - 1) % 12 + 1)
    else MonthStart(k + 1) - DaysInMonth(k / 12, k % 12 + 1)
  }

  /**
   * ECMAScript MakeDay(year, month, date): `month` counts from 0 and may lie
   * outside 0..11, `date` may lie outside the month; both roll over. The
   * month is month `month % 12` of year `year + month / 12` (floor
   * division), and `date - 1` days are added to its first day.
   */
  function MakeDay(year: int, month: int, date: int): int {
    var ym := year + month / 12;
    var mn := month % 12;
    MonthStart(12 * ym + mn) + date - 1
  }

  /** `Date.UTC` and the `Date` constructor map years 0..99 to 1900..1999. */
  function FullYear(y: int): int {
    if 0 <= y <= 99 then 1900 + y else y
  }

  /**
   * `Date.UTC(year, month, date)`, and under the UTC assumption
   * `new Date(year, month, date)`: milliseconds since the epoch, or None for
   * an invalid (NaN) time value.
   */
  function MakeDate(year: int, month: int, date: int): (r: Option<int>)
    ensures r.Some? <==> -MaxTimeValue <= DayStartMs(MakeDay(FullYear(year), month, date)) <= MaxTimeValue
    ensures r.Some? ==> r.value == DayStartMs(MakeDay(FullYear(year), month, date))
  {
    var t := DayStartMs(MakeDay(FullYear(year), month, date));
    if -MaxTimeValue <= t <= MaxTimeValue then Some(t) else None
  }

  /** MakeDay is the month start of the rolled-over month number plus the day offset. */
  lemma MakeDayIsMonthStart(year: int, month: int, date: int, k: int)
    requires k == 12 * year + month
    ensures MakeDay(year, month, date) == MonthStart(k) + date - 1
  {
    assert k == 12 * (year + month / 12) + month % 12;
  }

  /** Month number `k = 12 * y + m - 1` is month m of year y. */
  lemma MonthNumberParts(y: int, m: int, k: int)
    requires 1 <= m <= 12 && k == 12 * y + m - 1
    ensures k / 12 == y && k % 12 + 1 == m
  {
  }

  /** Consecutive month starts are exactly the length of the earlier month apart. */
  lemma MonthLength(k: int)
    ensures MonthStart(k + 1) - MonthStart(k) == DaysInMonth(k / 12, k % 12 + 1)
  {
    if k >= EpochMonth {
      assert MonthStart(k + 1) == MonthStart(k) + DaysInMonth(k / 12, k % 12 + 1);
    }
  }

  /**
   * Month starts lie between 28 and 31 days per month away from day 0 of
   * January 1970.
   */
  lemma {:induction false} MonthStartBounds(k: int)
    ensures k >= EpochMonth ==> 28 * (k - EpochMonth) <= MonthStart(k) <= 31 * (k - EpochMonth)
    ensures k < EpochMonth ==> 31 * (k - EpochMonth) <= MonthStart(k) <= 28 * (k - EpochMonth)
    decreases if k >= EpochMonth then k - EpochMonth else EpochMonth - k
  {
    if k > EpochMonth {
      MonthStartBounds(k - 1);
    } else if k < EpochMonth {
      MonthStartBounds(k + 1);
    }
  }

  /** Month starts strictly increase with the month number. */
  lemma {:induction false} MonthStartIncreasing(j: int, k: int)
    requires j < k
    ensures MonthStart(j) + 28 * (k - j) <= MonthStart(k)
    decreases k - j
  {
    MonthLength(j);
    if j + 1 < k {
      MonthStartIncreasing(j + 1, k);
    }
  }

  /** Month starts never decrease with the month number. */
  lemma MonthStartMonotone(j: int, k: int)
    requires j <= k
    ensures MonthStart(j) <= MonthStart(k)
  {
    if j < k {
      MonthStartIncreasing(j, k);
    }
  }

  /**
   * A real day of month m of year y (1 <= d <= its length) falls in
   * [start of that month, start of the next month).
   */
  lemma DayWithinItsMonth(y: int, m: int, d: int)
    requires 1 <= m <= 12 && 1 <= d <= DaysInMonth(y, m)
    ensures MonthStart(12 * y + m - 1) <= MakeDay(y, m - 1, d) < MonthStart(12 * y + m)
  {
    var k := 12 * y + m - 1;
    MakeDayIsMonthStart(y, m - 1, d, k);
    MonthNumberParts(y, m, k);
    MonthLength(k);
  }

  lemma DayStartMonotone(a: int, b: int)
    requires a <= b
    ensures DayStartMs(a) <= DayStartMs(b)
  {
  }

  /** The instant of a real day of a real month lies within that month. */
  lemma DayInstantWithinItsMonth(y: int, month: int, day: int)
    requires 1 <= month <= 12 && 1 <= day <= DaysInMonth(y, month)
    ensures DayStartMs(MonthStart(12 * y + month - 1))
      <= DayStartMs(MakeDay(y, month - 1, day))
      < DayStartMs(MonthStart(12 * y + month))
  {
    var d := MakeDay(y, month - 1, day);
    DayWithinItsMonth(y, month, day);
    DayStartMonotone(MonthStart(12 * y + month - 1), d);
    DayStartMonotone(d + 1, MonthStart(12 * y + month));
  }
}
