/**
 * The part of ECMAScript's `Date` the bot depends on: day numbers counted from
 * 1970-01-01, `new Date(year, monthIndex, day)` with its reading of years 0-99
 * as 1900-1999 and its roll-over of out-of-range months and days, the
 * time-value range limit, and the calendar date such a value denotes. Local
 * time is taken to be UTC.
 */
module JsDate {
  import opened Wrappers

  /** Milliseconds per day: `1000 * 60 * 60 * 24`. */
  const MsPerDay: int := 86_400_000

  /** A time value must stay within 8.64e15 ms of the epoch, i.e. 1e8 days. */
  const MaxDays: int := 100_000_000

  predicate IsLeap(y: int) {
    (y % 4 == 0 && y % 100 != 0) || y % 400 == 0
  }

  function DaysInYear(y: int): int {
    if IsLeap(y) then 366 else 365
  }

  /** The day number of January 1st of year `y` (ECMA-262 DayFromYear). */
  function DayFromYear(y: int): int {
    365 * (y - 1970) + (y - 1969) / 4 - (y - 1901) / 100 + (y - 1601) / 400
  }

  /** Consecutive years are DaysInYear apart. */
  lemma DayFromYearStep(y: int)
    ensures DayFromYear(y + 1) == DayFromYear(y) + DaysInYear(y)
  {
    assert (y - 1968) / 4 == (y - 1969) / 4 + (if y % 4 == 0 then 1 else 0);
    assert (y - 1900) / 100 == (y - 1901) / 100 + (if y % 100 == 0 then 1 else 0);
    assert (y - 1600) / 400 == (y - 1601) / 400 + (if y % 400 == 0 then 1 else 0);
  }

  /** The length of month `mo` (0 = January) of year `y`. */
  function DaysInMonth(y: int, mo: int): (n: int)
    requires 0 <= mo < 12
    ensures 28 <= n <= 31
  {
    if mo == 1 then (if IsLeap(y) then 29 else 28)
    else if mo == 3 || mo == 5 || mo == 8 || mo == 10 then 30
    else 31
  }

  /** The number of days of year `y` before month `mo` (12: the whole year). */
  function DaysBeforeMonth(y: int, mo: int): (n: int)
    requires 0 <= mo <= 12
    ensures 0 <= n <= 31 * mo
  {
    var leap := if IsLeap(y) then 1 else 0;
    if mo == 0 then 0
    else if mo == 1 then 31
    else [59, 90, 120, 151, 181, 212, 243, 273, 304, 334, 365][mo - 2] + leap
  }

  /** Each month starts where the one before it ends. */
  lemma DaysBeforeNextMonth(y: int, mo: int)
    requires 0 <= mo < 12
    ensures DaysBeforeMonth(y, mo + 1) == DaysBeforeMonth(y, mo) + DaysInMonth(y, mo)
  {
  }

  /** The twelve months fill the year exactly. */
  lemma MonthsFillYear(y: int)
    ensures DaysBeforeMonth(y, 12) == DaysInYear(y)
  {
  }

  /** The day number of a calendar date (month counted from 0). */
  function DayNumber(y: int, mo: int, d: int): int
    requires 0 <= mo < 12
  {
    DayFromYear(y) + DaysBeforeMonth(y, mo) + d - 1
  }

  /** ECMA-262 MakeDay: months beyond 11 or below 0 move into neighbouring years. */
  function MakeDay(year: int, monthIndex: int, date: int): int
  {
    DayNumber(year + monthIndex / 12, monthIndex % 12, date)
  }

  /** The year the `Date` constructor uses (ECMA-262 MakeFullYear): 0-99 stand for 1900-1999. */
  function FullYear(year: int): int {
    if 0 <= year <= 99 then 1900 + year else year
  }

  /**
   * `new Date(year, monthIndex, date)` as a day number at midnight, or None for
   * an Invalid Date (a `NaN` argument or a value beyond the time range).
   */
  function MakeDate(year: int, monthIndex: Option<int>, date: Option<int>): Option<int>
  {
    if monthIndex.None? || date.None? then None
    else
      var n := MakeDay(FullYear(year), monthIndex.value, date.value);
      if -MaxDays <= n <= MaxDays then Some(n) else None
  }

  /** A two-digit year is read as a year of the twentieth century: `new Date(50, 0, 1)` is 1 January 1950. */
  lemma TwoDigitYear(year: int, monthIndex: Option<int>, date: Option<int>)
    requires 0 <= year <= 99
    ensures MakeDate(year, monthIndex, date) == MakeDate(1900 + year, monthIndex, date)
    ensures MakeDate(50, Some(0), Some(1)) == Some(DayFromYear(1950))
  {
    assert MakeDay(1950, 0, 1) == DayNumber(1950, 0, 1);
  }

  /** A calendar date with month counted from 0, as `getFullYear`, `getMonth`, `getDate` read it. */
  datatype Civil = Civil(year: int, month: int, day: int)

  predicate IsCivil(c: Civil) {
    0 <= c.month < 12 && 1 <= c.day <= DaysInMonth(c.year, c.month)
  }

  /** The date `d` days into month `mo` of year `y`, rolled over into neighbouring months as `Date` does. */
  function Normalize(y: int, mo: int, d: int): (c: Civil)
    requires 0 <= mo < 12
    ensures IsCivil(c)
    decreases if d < 1 then 32 - d else d
  {
    if d < 1 then
      var py, pm := if mo == 0 then y - 1 else y, if mo == 0 then 11 else mo - 1;
      Normalize(py, pm, d + DaysInMonth(py, pm))
    else if d > DaysInMonth(y, mo) then
      var ny, nm := if mo == 11 then y + 1 else y, if mo == 11 then 0 else mo + 1;
      Normalize(ny, nm, d - DaysInMonth(y, mo))
    else Civil(y, mo, d)
  }

  /** Day `d` of a month is day `d` plus the length of the month before, counted in that earlier month. */
  lemma PreviousMonthSameDay(y: int, mo: int, d: int)
    requires 0 <= mo < 12
    ensures var py, pm := if mo == 0 then y - 1 else y, if mo == 0 then 11 else mo - 1;
      DayNumber(py, pm, d + DaysInMonth(py, pm)) == DayNumber(y, mo, d)
  {
    if mo == 0 {
      DayFromYearStep(y - 1);
      MonthsFillYear(y - 1);
    } else {
      DaysBeforeNextMonth(y, mo - 1);
    }
  }

  /** Day `d` of a month is day `d` minus its length, counted in the month after. */
  lemma NextMonthSameDay(y: int, mo: int, d: int)
    requires 0 <= mo < 12
    ensures var ny, nm := if mo == 11 then y + 1 else y, if mo == 11 then 0 else mo + 1;
      DayNumber(ny, nm, d - DaysInMonth(y, mo)) == DayNumber(y, mo, d)
  {
    if mo == 11 {
      DayFromYearStep(y);
      MonthsFillYear(y);
    } else {
      DaysBeforeNextMonth(y, mo);
    }
  }

  /** The day number of a calendar date. */
  function CivilDayNumber(c: Civil): int
    requires 0 <= c.month < 12
  {
    DayNumber(c.year, c.month, c.day)
  }

  /** Rolling a date over does not move it: the day number stays the same. */
  lemma {:induction false} NormalizeKeepsDayNumber(y: int, mo: int, d: int)
    requires 0 <= mo < 12
    ensures CivilDayNumber(Normalize(y, mo, d)) == DayNumber(y, mo, d)
    decreases if d < 1 then 32 - d else d
  {
    if d < 1 {
      var py, pm := if mo == 0 then y - 1 else y, if mo == 0 then 11 else mo - 1;
      NormalizeKeepsDayNumber(py, pm, d + DaysInMonth(py, pm));
      PreviousMonthSameDay(y, mo, d);
    } else if d > DaysInMonth(y, mo) {
      var ny, nm := if mo == 11 then y + 1 else y, if mo == 11 then 0 else mo + 1;
      NormalizeKeepsDayNumber(ny, nm, d - DaysInMonth(y, mo));
      NextMonthSameDay(y, mo, d);
    }
  }

  /** A date that is already valid is not rolled over. */
  lemma NormalizeValid(y: int, mo: int, d: int)
    requires 0 <= mo < 12 && 1 <= d <= DaysInMonth(y, mo)
    ensures Normalize(y, mo, d) == Civil(y, mo, d)
  {
  }

  /** A valid date of year `y` has a day number within that year. */
  lemma {:induction false} DayNumberWithinYear(y: int, mo: int, d: int)
    requires 0 <= mo < 12 && 1 <= d <= DaysInMonth(y, mo)
    ensures DayFromYear(y) <= DayNumber(y, mo, d) < DayFromYear(y + 1)
  {
    DayFromYearStep(y);
    DaysBeforeNextMonth(y, mo);
  }

  /** A month index within 0-11 stays in the given year. */
  lemma MakeDayWithinYear(year: int, mo: int, d: int)
    requires 0 <= mo < 12
    ensures MakeDay(year, mo, d) == DayNumber(year, mo, d)
    ensures DateOf(year, mo, d) == Normalize(FullYear(year), mo, d)
  {
    assert mo / 12 == 0 && mo % 12 == mo;
  }

  /** Day 0 of a month is the last day of the month before: `new Date(y, m, 0)` for `m` counted from 1. */
  lemma DayZeroIsLastOfPreviousMonth(y: int, m: int)
    requires 1 <= m <= 12
    ensures DateOf(y, m, 0) == Civil(FullYear(y), m - 1, DaysInMonth(FullYear(y), m - 1))
  {
    var fy := FullYear(y);
    if m < 12 {
      MakeDayWithinYear(y, m, 0);
      NormalizeValid(fy, m - 1, DaysInMonth(fy, m - 1));
    } else {
      assert m / 12 == 1 && m % 12 == 0;
      NormalizeValid(fy, 11, 31);
    }
  }

  /** The calendar date of `new Date(year, monthIndex, date)` when that value is valid. */
  function DateOf(year: int, monthIndex: int, date: int): (c: Civil)
    ensures IsCivil(c)
    ensures DayNumber(c.year, c.month, c.day) == MakeDay(FullYear(year), monthIndex, date)
  {
    var fy := FullYear(year);
    NormalizeKeepsDayNumber(fy + monthIndex / 12, monthIndex % 12, date);
    Normalize(fy + monthIndex / 12, monthIndex % 12, date)
  }

  /** Later years start later: at least 365 days per year in between. */
  lemma {:induction false} DayFromYearGrows(a: int, b: int)
    requires a <= b
    ensures DayFromYear(a) + 365 * (b - a) <= DayFromYear(b)
    decreases b - a
  {
    if a < b {
      DayFromYearGrows(a, b - 1);
      DayFromYearStep(b - 1);
    }
  }
}
