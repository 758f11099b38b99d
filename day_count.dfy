/**
 * The day count of the daily scheduler: a record's day and month placed in the
 * current year with `new Date(year, month - 1, day)`, the number of days from
 * now to that date rounded up, and the action that count selects.
 */
module DayCount {
  import opened Wrappers
  import opened Text
  import opened JsDate
  import opened Database

  /** What one run reads from the clock: `Date.now()` in ms, the current year, and today's ISO date. */
  datatype Clock = Clock(nowMs: int, year: int, isoToday: string)

  /** `year` is the calendar year `nowMs` falls in. */
  predicate ClockValid(c: Clock) {
    DayFromYear(c.year) <= c.nowMs / MsPerDay < DayFromYear(c.year + 1)
  }

  /** The day number of today (the day `nowMs` falls in). */
  function Today(c: Clock): int {
    c.nowMs / MsPerDay
  }

  /**
   * `new Date(year, parseInt(parts[1]) - 1, parseInt(parts[0]))` for the parts of
   * `birthDate` split on `-`: the day number of this year's birthday at
   * midnight (of 1900 + `year` when `year` is 0-99), None for an Invalid
   * Date (a field that does not parse, a missing field, or a value beyond the
   * time range).
   */
  function NominalDay(birthDate: string, year: int): Option<int>
  {
    var f := DayMonthFields(birthDate);
    MakeDate(year, if f.month.Some? then Some(f.month.value - 1) else None, f.day)
  }

  /** `parseInt` of the first and the second `-`-separated field; None for `NaN` or a missing field. */
  datatype Fields = Fields(day: Option<int>, month: Option<int>)

  function DayMonthFields(birthDate: string): Fields
  {
    var parts := Split(birthDate, '-');
    Fields(ParseInt(parts[0]), if |parts| > 1 then ParseInt(parts[1]) else None)
  }

  predicate AllDigits(s: string) {
    s != [] && forall i :: 0 <= i < |s| ==> '0' <= s[i] <= '9'
  }

  lemma AllDigitsAreDecimal(s: string)
    requires AllDigits(s)
    ensures forall i :: 0 <= i < |s| ==> DigitOf(s[i]) < 10
  {
  }

  /** The decimal value of a run of digits. */
  function Decimal(s: string): nat
    requires AllDigits(s)
  {
    AllDigitsAreDecimal(s);
    DigitsValue(s, 10)
  }

  lemma DecimalSnoc(s: string)
    requires AllDigits(s) && |s| >= 2
    ensures AllDigits(s[..|s| - 1])
    ensures Decimal(s) == Decimal(s[..|s| - 1]) * 10 + DigitOf(s[|s| - 1])
  {
    AllDigitsAreDecimal(s);
    AllDigitsAreDecimal(s[..|s| - 1]);
  }

  lemma DecimalOne(s: string)
    requires AllDigits(s) && |s| == 1
    ensures Decimal(s) == DigitOf(s[0])
  {
    AllDigitsAreDecimal(s);
    assert s[..|s| - 1] == [];
    assert DigitsValue(s, 10) == DigitsValue(s[..|s| - 1], 10) * 10 + DigitOf(s[0]);
  }

  /** The value of a two-digit field such as `29` or `02`. */
  lemma DecimalTwo(s: string)
    requires AllDigits(s) && |s| == 2
    ensures Decimal(s) == DigitOf(s[0]) * 10 + DigitOf(s[1])
  {
    DecimalSnoc(s);
    DecimalOne(s[..1]);
  }

  /** `parseInt` of a run of digits is its decimal value. */
  lemma ParseDecimal(ds: string)
    requires AllDigits(ds)
    ensures ParseInt(ds) == Some(Decimal(ds))
  {
    AllDigitsAreDecimal(ds);
    ParseIntDigits(ds);
  }

  lemma SplitDayMonth(dd: string, mm: string)
    requires AllDigits(dd) && AllDigits(mm)
    ensures Split(dd + "-" + mm, '-') == [dd, mm]
  {
    assert '-' !in dd && '-' !in mm;
    SplitAfterPiece(dd, mm, '-');
    SplitNoSeparator(mm, '-');
    assert dd + "-" + mm == dd + ['-'] + mm;
  }

  /** Only the first two fields of a date count: the day, then the month. */
  lemma NominalDayOfParts(s: string, dd: string, mm: string, rest: seq<string>, year: int)
    requires AllDigits(dd) && AllDigits(mm)
    requires Split(s, '-') == [dd, mm] + rest
    ensures NominalDay(s, year) == MakeDate(year, Some(Decimal(mm) - 1), Some(Decimal(dd)))
  {
    assert Split(s, '-')[0] == dd && Split(s, '-')[1] == mm;
    ParseDecimal(dd);
    ParseDecimal(mm);
  }

  /** A `DD-MM` date as the birthday command stores it: the first field is the day, the second the month. */
  lemma NominalDayOfDayMonth(dd: string, mm: string, year: int)
    requires AllDigits(dd) && AllDigits(mm)
    ensures NominalDay(dd + "-" + mm, year) == MakeDate(year, Some(Decimal(mm) - 1), Some(Decimal(dd)))
  {
    SplitDayMonth(dd, mm);
    NominalDayOfParts(dd + "-" + mm, dd, mm, [], year);
  }

  /**
   * Text after the month's digits is ignored, as `parseInt` stops at the first
   * character that is not a digit: `05-03 (approx)` is still the 5th of March.
   */
  lemma NominalDayIgnoresMonthSuffix(dd: string, mm: string, tail: string, year: int)
    requires AllDigits(dd) && AllDigits(mm)
    requires '-' !in tail && (tail == [] || DigitOf(tail[0]) >= 10)
    requires !(mm == "0" && tail != [] && (tail[0] == 'x' || tail[0] == 'X'))
    ensures NominalDay(dd + "-" + mm + tail, year) == MakeDate(year, Some(Decimal(mm) - 1), Some(Decimal(dd)))
  {
    DayMonthFieldsOfSuffixedMonth(dd, mm, tail);
  }

  lemma DayMonthFieldsOfSuffixedMonth(dd: string, mm: string, tail: string)
    requires AllDigits(dd) && AllDigits(mm)
    requires '-' !in tail && (tail == [] || DigitOf(tail[0]) >= 10)
    requires !(mm == "0" && tail != [] && (tail[0] == 'x' || tail[0] == 'X'))
    ensures DayMonthFields(dd + "-" + mm + tail) == Fields(Some(Decimal(dd)), Some(Decimal(mm)))
  {
    var parts := Split(dd + "-" + mm + tail, '-');
    SplitDayMonthTail(dd, mm, tail);
    assert parts[0] == dd && parts[1] == mm + tail;
    ParseDecimal(dd);
    AllDigitsAreDecimal(mm);
    ParseIntStopsAtNonDigit(mm, tail);
  }

  lemma SplitDayMonthTail(dd: string, mm: string, tail: string)
    requires AllDigits(dd) && AllDigits(mm) && '-' !in tail
    ensures Split(dd + "-" + mm + tail, '-') == [dd, mm + tail]
  {
    assert '-' !in dd;
    assert '-' !in mm + tail by {
      assert forall i :: 0 <= i < |mm| ==> (mm + tail)[i] == mm[i];
    }
    SplitAfterPiece(dd, mm + tail, '-');
    SplitNoSeparator(mm + tail, '-');
    assert dd + "-" + mm + tail == dd + ['-'] + (mm + tail);
  }

  /**
   * A date that exists in the constructor's year (`year` itself, or 1900 + `year`
   * for a two-digit year) lands on that very day of that year.
   */
  lemma NominalDayOfCalendarDate(dd: string, mm: string, year: int)
    requires AllDigits(dd) && AllDigits(mm)
    requires 1 <= Decimal(mm) <= 12 && 1 <= Decimal(dd) <= DaysInMonth(FullYear(year), Decimal(mm) - 1)
    requires -MaxDays <= DayNumber(FullYear(year), Decimal(mm) - 1, Decimal(dd)) <= MaxDays
    ensures NominalDay(dd + "-" + mm, year) == Some(DayNumber(FullYear(year), Decimal(mm) - 1, Decimal(dd)))
    ensures DateOf(year, Decimal(mm) - 1, Decimal(dd)) == Civil(FullYear(year), Decimal(mm) - 1, Decimal(dd))
  {
    NominalDayOfDayMonth(dd, mm, year);
    MakeDayWithinYear(FullYear(year), Decimal(mm) - 1, Decimal(dd));
    MakeDayWithinYear(year, Decimal(mm) - 1, Decimal(dd));
    NormalizeValid(FullYear(year), Decimal(mm) - 1, Decimal(dd));
  }

  /** The 29th of February of a common year is the 1st of March. */
  lemma LeapDayInCommonYear(dd: string, mm: string, year: int)
    requires AllDigits(dd) && AllDigits(mm) && Decimal(dd) == 29 && Decimal(mm) == 2
    requires !IsLeap(FullYear(year))
    ensures NominalDay(dd + "-" + mm, year) == MakeDate(year, Some(2), Some(1))
    ensures DateOf(year, 1, 29) == Civil(FullYear(year), 2, 1)
  {
    NominalDayOfDayMonth(dd, mm, year);
    MakeDayWithinYear(FullYear(year), 1, 29);
    MakeDayWithinYear(FullYear(year), 2, 1);
    MakeDayWithinYear(year, 1, 29);
  }

  /** `Math.ceil(a / b)` for a positive `b`, computed exactly. */
  function CeilDiv(a: int, b: int): int
    requires b > 0
  {
    -((-a) / b)
  }

  /** The day count of the scheduler: `Math.ceil((birthday - now) / msPerDay)`. */
  function Offset(birthDay: int, nowMs: int): int {
    CeilDiv(birthDay * MsPerDay - nowMs, MsPerDay)
  }

  /** Offset is the least whole number of days that reaches the birthday from now. */
  lemma OffsetIsCeiling(birthDay: int, nowMs: int)
    ensures (Offset(birthDay, nowMs) - 1) * MsPerDay < birthDay * MsPerDay - nowMs
    ensures birthDay * MsPerDay - nowMs <= Offset(birthDay, nowMs) * MsPerDay
  {
    var a := birthDay * MsPerDay - nowMs;
    assert -a == ((-a) / MsPerDay) * MsPerDay + (-a) % MsPerDay;
  }

  /**
   * Counted from any time of day, the offset is the number of calendar days
   * between today and the birthday: the time of day never matters.
   */
  lemma OffsetIsDayDifference(birthDay: int, nowMs: int)
    ensures Offset(birthDay, nowMs) == birthDay - nowMs / MsPerDay
  {
    var q, r := nowMs / MsPerDay, nowMs % MsPerDay;
    assert nowMs == q * MsPerDay + r && 0 <= r < MsPerDay;
    assert -(birthDay * MsPerDay - nowMs) == (q - birthDay) * MsPerDay + r;
  }

  /** The offset to a nominal day, None for an Invalid Date (`NaN`, which equals no number). */
  function DayCount(nominal: Option<int>, nowMs: int): Option<int> {
    match nominal
    case None => None
    case Some(b) => Some(Offset(b, nowMs))
  }

  /** The offset of a record. */
  function OffsetOf(birthDate: string, c: Clock): Option<int> {
    DayCount(NominalDay(birthDate, c.year), c.nowMs)
  }

  /** The day count is the number of days from today to the nominal day. */
  lemma DayCountIsDistance(nominal: Option<int>, c: Clock)
    ensures nominal.None? ==> DayCount(nominal, c.nowMs).None?
    ensures nominal.Some? ==> DayCount(nominal, c.nowMs) == Some(nominal.value - Today(c))
  {
    if nominal.Some? {
      OffsetIsDayDifference(nominal.value, c.nowMs);
    }
  }

  /** What the scheduler does with one record. */
  datatype Action =
    | Collect     // start the message collection
    | CountPost   // report the number of collected messages
    | Publish     // post the birthday thread
    | Idle        // nothing

  /** The `if / else if` chain on the day count. */
  function Dispatch(offset: Option<int>): Action {
    if offset == Some(7) then Collect
    else if offset == Some(1) then CountPost
    else if offset == Some(0) then Publish
    else Idle
  }

  function Plan(row: BirthdayRow, c: Clock): Action {
    Dispatch(OffsetOf(row.birthDate, c))
  }

  /** A record is acted on exactly one week before, one day before, and on its day. */
  lemma PlanByDaysAhead(row: BirthdayRow, c: Clock)
    ensures Plan(row, c) == Collect <==> NominalDay(row.birthDate, c.year) == Some(Today(c) + 7)
    ensures Plan(row, c) == CountPost <==> NominalDay(row.birthDate, c.year) == Some(Today(c) + 1)
    ensures Plan(row, c) == Publish <==> NominalDay(row.birthDate, c.year) == Some(Today(c))
  {
    var n := NominalDay(row.birthDate, c.year);
    DayCountIsDistance(n, c);
    DispatchByDayCount(n, DayCount(n, c.nowMs), Today(c));
  }

  /** The action for a day count that is the distance from `today` to day `n`. */
  lemma DispatchByDayCount(n: Option<int>, offset: Option<int>, today: int)
    requires n.None? ==> offset.None?
    requires n.Some? ==> offset == Some(n.value - today)
    ensures Dispatch(offset) == Collect <==> n == Some(today + 7)
    ensures Dispatch(offset) == CountPost <==> n == Some(today + 1)
    ensures Dispatch(offset) == Publish <==> n == Some(today)
  {
  }

  lemma SplitThree(a: string, b: string, d: string)
    requires '-' !in a && '-' !in b && '-' !in d
    ensures Split(a + "-" + b + "-" + d, '-') == [a, b] + [d]
  {
    SplitNoSeparator(d, '-');
    SplitAfterPiece(b, d, '-');
    SplitAfterPiece(a, b + ['-'] + d, '-');
    assert a + "-" + b + "-" + d == a + ['-'] + (b + ['-'] + d);
  }

  /** A `YYYY-MM-DD` date is read as day YYYY of month MM. */
  lemma NominalDayOfIsoDate(yyyy: string, mm: string, dd: string, year: int)
    requires AllDigits(yyyy) && AllDigits(mm) && AllDigits(dd)
    ensures NominalDay(yyyy + "-" + mm + "-" + dd, year)
            == MakeDate(year, Some(Decimal(mm) - 1), Some(Decimal(yyyy)))
  {
    assert '-' !in yyyy && '-' !in mm && '-' !in dd;
    SplitThree(yyyy, mm, dd);
    NominalDayOfParts(yyyy + "-" + mm + "-" + dd, yyyy, mm, [dd], year);
  }

  lemma PlaceholderYear(yyyy: string)
    requires yyyy == "1900"
    ensures AllDigits(yyyy) && Decimal(yyyy) == 1900
  {
    DecimalSnoc(yyyy);
    DecimalSnoc(yyyy[..3]);
    assert yyyy[..3][..2] == yyyy[..2];
    DecimalTwo(yyyy[..2]);
  }

  lemma PlaceholderMonth(mm: string)
    requires mm == "01"
    ensures AllDigits(mm) && Decimal(mm) == 1
  {
    DecimalTwo(mm);
  }

  lemma PlaceholderSplit(yyyy: string, mm: string)
    requires yyyy == "1900" && mm == "01"
    ensures Split(UnknownDate, '-') == [yyyy, mm] + [mm]
  {
    SplitThree(yyyy, mm, mm);
    assert UnknownDate == yyyy + "-" + mm + "-" + mm;
  }

  /** The placeholder date splits into `1900`, `01`, `01`: day 1900 of January. */
  lemma UnknownDateFields(year: int)
    ensures NominalDay(UnknownDate, year) == MakeDate(year, Some(0), Some(1900))
  {
    var yyyy, mm := "1900", "01";
    PlaceholderYear(yyyy);
    PlaceholderMonth(mm);
    PlaceholderSplit(yyyy, mm);
    NominalDayOfParts(UnknownDate, yyyy, mm, [mm], year);
  }

  /** Day `k` of the current year (counted from 0) is between `k - DaysInYear` and `k` days ahead. */
  lemma OffsetFromYearStart(c: Clock, k: int)
    requires ClockValid(c)
    ensures k - DaysInYear(c.year) < Offset(DayFromYear(c.year) + k, c.nowMs) <= k
  {
    DayFromYearStep(c.year);
    OffsetIsDayDifference(DayFromYear(c.year) + k, c.nowMs);
  }

  /**
   * In a year the constructor reads as two digits (0-99), `new Date(year, …)`
   * lands in the twentieth century: day `k` of that year is far ahead.
   */
  lemma TwoDigitClockYearAhead(c: Clock, k: int)
    requires ClockValid(c) && 0 <= c.year <= 99
    ensures Offset(DayFromYear(FullYear(c.year)) + k, c.nowMs) > 365 * 1800 + k
  {
    DayFromYearGrows(c.year + 1, 1900 + c.year);
    OffsetIsDayDifference(DayFromYear(FullYear(c.year)) + k, c.nowMs);
  }

  /**
   * The placeholder date `1900-01-01` lies over four years ahead: between 1534
   * and 1899 days, or far more when the clock's year has two digits.
   */
  lemma UnknownDateOffset(c: Clock)
    requires ClockValid(c)
    ensures OffsetOf(UnknownDate, c).Some? ==> 1534 <= OffsetOf(UnknownDate, c).value
    ensures OffsetOf(UnknownDate, c).Some? && FullYear(c.year) == c.year ==> OffsetOf(UnknownDate, c).value <= 1899
  {
    var n := DayFromYear(FullYear(c.year)) + 1899;
    assert NominalDay(UnknownDate, c.year) == (if -MaxDays <= n <= MaxDays then Some(n) else None) by {
      UnknownDateFields(c.year);
      MakeDayWithinYear(FullYear(c.year), 0, 1900);
    }
    if 0 <= c.year <= 99 {
      TwoDigitClockYearAhead(c, 1899);
    } else {
      OffsetFromYearStart(c, 1899);
    }
  }

  /** No action is taken more than a week ahead. */
  lemma FarOffsetIdle(offset: Option<int>)
    requires offset.Some? ==> offset.value > 7
    ensures Dispatch(offset) == Idle
  {
  }

  /** A record whose birthday is not known never triggers anything. */
  lemma UnknownDateNeverActs(c: Clock)
    requires ClockValid(c)
    ensures Dispatch(OffsetOf(UnknownDate, c)) == Idle
  {
    UnknownDateOffset(c);
    FarOffsetIdle(OffsetOf(UnknownDate, c));
  }

  /** A record whose nominal day is one of January 1-7 is never seven days ahead. */
  lemma EarlyJanuaryOffset(birthDate: string, c: Clock, day: int)
    requires ClockValid(c) && 1 <= day <= 7
    requires NominalDay(birthDate, c.year) == MakeDate(c.year, Some(0), Some(day))
    ensures Dispatch(OffsetOf(birthDate, c)) != Collect
  {
    MakeDayWithinYear(FullYear(c.year), 0, day);
    assert MakeDay(FullYear(c.year), 0, day) == DayFromYear(FullYear(c.year)) + (day - 1);
    if 0 <= c.year <= 99 {
      TwoDigitClockYearAhead(c, day - 1);
    } else {
      OffsetFromYearStart(c, day - 1);
    }
  }

  /**
   * The birthday is always placed in the current year, so a birthday in the
   * first week of January is already past during the last week of December:
   * its collection is never started.
   */
  lemma EarlyJanuaryNeverCollected(dd: string, mm: string, c: Clock)
    requires ClockValid(c)
    requires AllDigits(dd) && AllDigits(mm) && 1 <= Decimal(dd) <= 7 && Decimal(mm) == 1
    ensures Dispatch(OffsetOf(dd + "-" + mm, c)) != Collect
  {
    NominalDayOfDayMonth(dd, mm, c.year);
    EarlyJanuaryOffset(dd + "-" + mm, c, Decimal(dd));
  }
}
