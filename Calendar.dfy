/** Calendar arithmetic of the JavaScript `Date` object, as far as the cutoff
    `filterDate.setMonth(filterDate.getMonth() - timeFilter)` needs it.

    Time values are integers (milliseconds since 1970-01-01T00:00Z). A moment read
    from the clock is given by its calendar fields; the day-count functions follow
    section 21.4.1 of ECMA-262 (DayFromYear, InLeapYear, MakeDay, MakeDate).
    Local time is taken to be UTC. */
module Calendar {

  const MsPerDay: int := 86400000

  /** A clock reading split into the fields `getFullYear`, `getMonth` (0..11),
      `getDate` (1..31) and the milliseconds elapsed since midnight. */
  datatype CalendarTime = CalendarTime(year: int, month: int, date: int, msInDay: int)
  {
    /** The fields of a real clock reading (a date that exists in its month). */
    ghost predicate Valid() {
      0 <= month < 12 && 1 <= date <= DaysInMonth(year, month) && 0 <= msInDay < MsPerDay
    }
  }

  predicate InLeapYear(y: int) {
    y % 4 == 0 && (y % 100 != 0 || y % 400 == 0)
  }

  function DaysInYear(y: int): int {
    if InLeapYear(y) then 366 else 365
  }

  /** Number of days from 1970-01-01 to the first day of year `y` (negative before 1970). */
  function DayFromYear(y: int): int {
    365 * (y - 1970) + (y - 1969) / 4 - (y - 1901) / 100 + (y - 1601) / 400
  }

  /** Length of month `m` (0..11) of year `y`. */
  function DaysInMonth(y: int, m: int): int
    requires 0 <= m < 12
  {
    if m == 1 then (if InLeapYear(y) then 29 else 28)
    else if m == 3 || m == 5 || m == 8 || m == 10 then 30
    else 31
  }

  /** Days of year `y` that precede the first day of month `m` (0..11). */
  function MonthStart(y: int, m: int): int
    requires 0 <= m < 12
  {
    if m == 0 then 0 else MonthStart(y, m - 1) + DaysInMonth(y, m - 1)
  }

  /** The year/month pair that month number `month` of year `year` denotes once the
      month is brought into 0..11 (MakeDay: ym = year + floor(month / 12),
      mn = month modulo 12). Dafny's `/` and `%` by a positive constant are the
      floor and the non-negative remainder, as ECMA-262 prescribes. */
  function NormalizeMonth(year: int, month: int): (r: (int, int))
    ensures 0 <= r.1 < 12
    ensures r.0 * 12 + r.1 == year * 12 + month
  {
    (year + month / 12, month % 12)
  }

  /** MakeDay(year, month, date): the day number of `date` in the given month, where
      a month outside 0..11 borrows from or carries into the year and a date past the
      end of the month rolls forward into the next one. */
  function MakeDay(year: int, month: int, date: int): int {
    var (ym, mn) := NormalizeMonth(year, month);
    DayFromYear(ym) + MonthStart(ym, mn) + date - 1
  }

  function MakeDate(day: int, time: int): int {
    day * MsPerDay + time
  }

  /** The time value of a clock reading. */
  function TimeValue(c: CalendarTime): int {
    MakeDate(MakeDay(c.year, c.month, c.date), c.msInDay)
  }

  /** `d.setMonth(d.getMonth() - months)` for the clock reading `now`: the year and
      month are shifted back by `months` calendar months, the day of the month and
      the time of day are kept. */
  function Cutoff(now: CalendarTime, months: int): int {
    MakeDate(MakeDay(now.year, now.month - months, now.date), now.msInDay)
  }

  // ---------------------------------------------------------------------------
  // Lemmas

  /** ECMA-262's closed-form DayFromYear agrees with the year lengths. */
  lemma DayFromYearStep(y: int)
    ensures DayFromYear(y + 1) == DayFromYear(y) + DaysInYear(y)
  {
    var d4 := if y % 4 == 0 then 1 else 0;
    var d100 := if y % 100 == 0 then 1 else 0;
    var d400 := if y % 400 == 0 then 1 else 0;
    assert (y - 1968) / 4 == (y - 1969) / 4 + d4 by { FloorStep4(y); }
    assert (y - 1900) / 100 == (y - 1901) / 100 + d100 by { FloorStep100(y); }
    assert (y - 1600) / 400 == (y - 1601) / 400 + d400 by { FloorStep400(y); }
    assert DayFromYear(y + 1) == DayFromYear(y) + 365 + d4 - d100 + d400;
    if y % 400 == 0 {
      MultipleOf400(y);
    }
    if y % 100 == 0 {
      MultipleOf100(y);
    }
  }

  /** The floored quotient of `y - 1969` by 4 goes up by one exactly when `y` is a
      multiple of 4. */
  lemma FloorStep4(y: int)
    ensures (y - 1968) / 4 == (y - 1969) / 4 + (if y % 4 == 0 then 1 else 0)
  {
    var q, r := (y - 1969) / 4, (y - 1969) % 4;
    assert y - 1969 == 4 * q + r && 0 <= r < 4;
    assert y % 4 == 0 <==> r == 3;
    if r == 3 {
      assert y - 1968 == 4 * (q + 1);
    } else {
      assert y - 1968 == 4 * q + (r + 1);
    }
  }

  lemma FloorStep100(y: int)
    ensures (y - 1900) / 100 == (y - 1901) / 100 + (if y % 100 == 0 then 1 else 0)
  {
    var q, r := (y - 1901) / 100, (y - 1901) % 100;
    assert y - 1901 == 100 * q + r && 0 <= r < 100;
    assert y % 100 == 0 <==> r == 99;
    if r == 99 {
      assert y - 1900 == 100 * (q + 1);
    } else {
      assert y - 1900 == 100 * q + (r + 1);
    }
  }

  lemma FloorStep400(y: int)
    ensures (y - 1600) / 400 == (y - 1601) / 400 + (if y % 400 == 0 then 1 else 0)
  {
    var q, r := (y - 1601) / 400, (y - 1601) % 400;
    assert y - 1601 == 400 * q + r && 0 <= r < 400;
    assert y % 400 == 0 <==> r == 399;
    if r == 399 {
      assert y - 1600 == 400 * (q + 1);
    } else {
      assert y - 1600 == 400 * q + (r + 1);
    }
  }

  /** A multiple of 400 is a multiple of 100. */
  lemma MultipleOf400(y: int)
    requires y % 400 == 0
    ensures y % 100 == 0
  {
    var m := 4 * (y / 400);
    assert y == 100 * m;
    assert y / 100 == m;
  }

  /** A multiple of 100 is a multiple of 4. */
  lemma MultipleOf100(y: int)
    requires y % 100 == 0
    ensures y % 4 == 0
  {
    var m := 25 * (y / 100);
    assert y == 4 * m;
    assert y / 4 == m;
  }

  /** The twelve months add up to the year's length. */
  lemma MonthsFillYear(y: int)
    ensures MonthStart(y, 11) + DaysInMonth(y, 11) == DaysInYear(y)
  {
    var leap := if InLeapYear(y) then 1 else 0;
    assert MonthStart(y, 1) == 31;
    assert MonthStart(y, 2) == 59 + leap;
    assert MonthStart(y, 3) == 90 + leap;
    assert MonthStart(y, 4) == 120 + leap;
    assert MonthStart(y, 5) == 151 + leap;
    assert MonthStart(y, 6) == 181 + leap;
    assert MonthStart(y, 7) == 212 + leap;
    assert MonthStart(y, 8) == 243 + leap;
    assert MonthStart(y, 9) == 273 + leap;
    assert MonthStart(y, 10) == 304 + leap;
    assert MonthStart(y, 11) == 334 + leap;
  }

  lemma DaysInMonthBounds(y: int, m: int)
    requires 0 <= m < 12
    ensures 28 <= DaysInMonth(y, m) <= 31
  {
  }

  /** One more month moves the day number on by the length of the month that is
      left behind, across a year boundary too. */
  lemma {:induction false} MakeDayStep(year: int, month: int, date: int)
    ensures MakeDay(year, month + 1, date)
         == MakeDay(year, month, date) + DaysInMonth(year + month / 12, month % 12)
  {
    var q, r := month / 12, month % 12;
    assert month == 12 * q + r && 0 <= r < 12;
    if r == 11 {
      assert month + 1 == 12 * (q + 1);
      assert (month + 1) / 12 == q + 1 && (month + 1) % 12 == 0;
      DayFromYearStep(year + q);
      MonthsFillYear(year + q);
    } else {
      assert month + 1 == 12 * q + (r + 1);
      assert (month + 1) / 12 == q && (month + 1) % 12 == r + 1;
    }
  }

  /** MakeDay is strictly increasing in the month for a fixed year and date. */
  lemma {:induction false} MakeDayIncreasing(year: int, a: int, b: int, date: int)
    requires a < b
    ensures MakeDay(year, a, date) < MakeDay(year, b, date)
    decreases b - a
  {
    MakeDayStep(year, a, date);
    DaysInMonthBounds(year + a / 12, a % 12);
    if a + 1 < b {
      MakeDayIncreasing(year, a + 1, b, date);
    }
  }

  /** Moving back zero months keeps the moment; moving back one or more months
      gives a moment strictly before `now`, even when the kept day of the month
      overflows the shorter target month. */
  lemma CutoffBeforeNow(now: CalendarTime, months: int)
    ensures months == 0 ==> Cutoff(now, months) == TimeValue(now)
    ensures months > 0 ==> Cutoff(now, months) < TimeValue(now)
    ensures months < 0 ==> Cutoff(now, months) > TimeValue(now)
  {
    if months > 0 {
      MakeDayIncreasing(now.year, now.month - months, now.month, now.date);
    } else if months < 0 {
      MakeDayIncreasing(now.year, now.month, now.month - months, now.date);
    }
  }

  /** A longer threshold gives a strictly earlier cutoff. */
  lemma CutoffDecreasing(now: CalendarTime, shorter: int, longer: int)
    requires shorter < longer
    ensures Cutoff(now, longer) < Cutoff(now, shorter)
  {
    MakeDayIncreasing(now.year, now.month - longer, now.month - shorter, now.date);
  }

  /** When the kept date exists in the target month, the cutoff is exactly the clock
      reading with the year and month moved back and every other field unchanged. */
  lemma CutoffKeepsDate(now: CalendarTime, months: int)
    requires now.Valid()
    ensures var (y, m) := NormalizeMonth(now.year, now.month - months);
      now.date <= DaysInMonth(y, m) ==>
        Cutoff(now, months) == TimeValue(CalendarTime(y, m, now.date, now.msInDay)) &&
        CalendarTime(y, m, now.date, now.msInDay).Valid()
  {
    var (y, m) := NormalizeMonth(now.year, now.month - months);
    assert NormalizeMonth(y, m) == (y, m);
  }

  /** 2024-03-15 moved back one month is 2024-02-15 at the same time of day. */
  lemma CutoffExample(ms: int)
    ensures Cutoff(CalendarTime(2024, 2, 15, ms), 1) == TimeValue(CalendarTime(2024, 1, 15, ms))
    ensures Cutoff(CalendarTime(2024, 2, 15, ms), 1) == 1707955200000 + ms
  {
    assert 1 / 12 == 0 && 1 % 12 == 1;
    assert DayFromYear(2024) == 19723;
    assert MonthStart(2024, 1) == 31;
    assert MakeDay(2024, 1, 15) == 19768;
    assert MakeDate(19768, ms) == 1707955200000 + ms;
  }

  /** 2024-03-31 moved back one month is "February 31st", which rolls forward to
      2024-03-02 (2024 is a leap year), not to the end of February. */
  lemma CutoffOverflowExample()
    ensures Cutoff(CalendarTime(2024, 2, 31, 0), 1) == TimeValue(CalendarTime(2024, 2, 2, 0))
  {
    assert DayFromYear(2024) == 19723;
    assert MonthStart(2024, 1) == 31;
    assert MonthStart(2024, 2) == 60;
    assert MakeDay(2024, 1, 31) == 19784 == MakeDay(2024, 2, 2);
  }

  /** January moved back by one month borrows from the year. */
  lemma CutoffYearBorrowExample()
    ensures Cutoff(CalendarTime(2024, 0, 10, 0), 1) == TimeValue(CalendarTime(2023, 11, 10, 0))
    ensures Cutoff(CalendarTime(2024, 0, 10, 0), 13) == TimeValue(CalendarTime(2022, 11, 10, 0))
  {
    assert -1 / 12 == -1 && -1 % 12 == 11;
    assert -13 / 12 == -2 && -13 % 12 == 11;
  }
}
