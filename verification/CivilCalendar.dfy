/**
 * Local dates in a zone with a fixed offset: days are numbered from 1970-01-01, months from year 0,
 * with the Gregorian leap-year rule.
 */
module CivilCalendar {
  import opened Basics

  const EPOCH_MONTH: int := 1970 * 12

  predicate IsLeap(year: int) {
    year % 4 == 0 && (year % 100 != 0 || year % 400 == 0)
  }

  /** Days from 1970-01-01 to the first of January of `year`. */
  function YearStart(year: int): int {
    365 * (year - 1970) + (year - 1) / 4 - (year - 1) / 100 + (year - 1) / 400 - 477
  }

  function LengthInYear(month: int, leap: bool): int
    requires 0 <= month < 12
  {
    if month == 1 then (if leap then 29 else 28)
    else if month == 3 || month == 5 || month == 8 || month == 10 then 30
    else 31
  }

  function DaysBefore(month: int, leap: bool): int
    requires 0 <= month <= 12
  {
    if month == 0 then 0 else DaysBefore(month - 1, leap) + LengthInYear(month - 1, leap)
  }

  /** Months are counted `12 * year + month`, January being 0. */
  function MonthLength(k: int): (n: int)
    ensures 28 <= n <= 31
  {
    LengthInYear(k % 12, IsLeap(k / 12))
  }

  function MonthStart(k: int): int {
    YearStart(k / 12) + DaysBefore(k % 12, IsLeap(k / 12))
  }

  lemma YearLength(year: int)
    ensures YearStart(year + 1) - YearStart(year) == if IsLeap(year) then 366 else 365
  {
    assert year / 4 - (year - 1) / 4 == if year % 4 == 0 then 1 else 0;
    assert year / 100 - (year - 1) / 100 == if year % 100 == 0 then 1 else 0;
    assert year / 400 - (year - 1) / 400 == if year % 400 == 0 then 1 else 0;
    assert year % 400 == 0 ==> year % 100 == 0;
    assert year % 100 == 0 ==> year % 4 == 0;
  }

  lemma DaysInYear(leap: bool)
    ensures DaysBefore(12, leap) == if leap then 366 else 365
  {
    assert DaysBefore(1, leap) == 31;
    assert DaysBefore(2, leap) == if leap then 60 else 59;
    assert DaysBefore(4, leap) == DaysBefore(2, leap) + 61;
    assert DaysBefore(6, leap) == DaysBefore(4, leap) + 61;
    assert DaysBefore(8, leap) == DaysBefore(6, leap) + 62;
    assert DaysBefore(10, leap) == DaysBefore(8, leap) + 61;
    assert DaysBefore(12, leap) == DaysBefore(10, leap) + 61;
  }

  /** Each month begins where the one before it ends. */
  lemma MonthsAreContiguous(k: int)
    ensures MonthStart(k + 1) == MonthStart(k) + MonthLength(k)
  {
    if k % 12 == 11 {
      assert (k + 1) / 12 == k / 12 + 1 && (k + 1) % 12 == 0;
      YearLength(k / 12);
      DaysInYear(IsLeap(k / 12));
    } else {
      assert (k + 1) / 12 == k / 12 && (k + 1) % 12 == k % 12 + 1;
    }
  }

  lemma {:induction false} MonthsAscend(j: int, k: int)
    requires j <= k
    ensures MonthStart(k) >= MonthStart(j) + 28 * (k - j)
    decreases k - j
  {
    hide MonthStart, MonthLength;
    if j < k {
      MonthsAscend(j, k - 1);
      MonthsAreContiguous(k - 1);
    }
  }

  /** The month `day` falls in, sought from month `k`. */
  function MonthFrom(day: int, k: int): (m: int)
    ensures MonthStart(m) <= day < MonthStart(m + 1)
    decreases if day < MonthStart(k) then MonthStart(k) - day
              else if day >= MonthStart(k + 1) then day - MonthStart(k + 1) + 1
              else 0
  {
    hide MonthStart, MonthLength;
    MonthsAreContiguous(k);
    MonthsAreContiguous(k - 1);
    MonthsAreContiguous(k + 1);
    if day < MonthStart(k) then MonthFrom(day, k - 1)
    else if day >= MonthStart(k + 1) then MonthFrom(day, k + 1)
    else k
  }

  function MonthOf(day: int): (m: int)
    ensures MonthStart(m) <= day < MonthStart(m + 1)
  {
    hide MonthStart;
    MonthFrom(day, EPOCH_MONTH)
  }

  lemma MonthIsUnique(day: int, k: int)
    requires MonthStart(k) <= day < MonthStart(k + 1)
    ensures MonthOf(day) == k
  {
    hide MonthStart;
    if MonthOf(day) < k {
      MonthsAscend(MonthOf(day) + 1, k);
    } else if k < MonthOf(day) {
      MonthsAscend(k + 1, MonthOf(day));
    }
  }

  /** 0 is Monday; 1970-01-01 was a Thursday. */
  function Weekday(day: int): (w: int)
    ensures 0 <= w < 7
  {
    (day + 3) % 7
  }

  /** The day of the month, from 1. */
  function DayOfMonth(day: int): int {
    day - MonthStart(MonthOf(day)) + 1
  }

  /** The months of a year, January first, have the lengths of the Gregorian calendar. */
  lemma TheMonths(year: int, month: int)
    requires 0 <= month < 12
    ensures var february := if (year % 4 == 0 && year % 100 != 0) || year % 400 == 0 then 29 else 28;
            MonthLength(12 * year + month) == [31, february, 31, 30, 31, 30, 31, 31, 30, 31, 30, 31][month]
  {
    assert (12 * year + month) / 12 == year && (12 * year + month) % 12 == month;
  }

  lemma EpochMonthStartsTheDays()
    ensures MonthStart(EPOCH_MONTH) == 0
  {
    hide MonthOf, MonthLength, IsLeap;
    assert EPOCH_MONTH / 12 == 1970 && EPOCH_MONTH % 12 == 0;
    assert DaysBefore(0, IsLeap(1970)) == 0;
  }

  /** Day 0 is the first of January 1970, a Thursday. */
  lemma TheEpoch()
    ensures MonthOf(0) == EPOCH_MONTH && DayOfMonth(0) == 1 && Weekday(0) == 3
  {
    EpochMonthStartsTheDays();
    hide MonthStart, MonthOf, MonthLength;
    MonthsAreContiguous(EPOCH_MONTH);
    MonthIsUnique(0, EPOCH_MONTH);
  }

  /** The local date at an instant. */
  function LocalDate(at: Timestamp, offset: int): int {
    (at + offset) / DAY_SECONDS
  }

  /** `date` at `minute` counted from its midnight in the zone; from 1440 on, the midnight that ends it. */
  function LocalInstant(date: int, minute: nat, offset: int): Timestamp {
    var m := Min(minute, 24 * 60);
    if m == 24 * 60 then (date + 1) * DAY_SECONDS - offset
    else date * DAY_SECONDS + m * 60 - offset
  }

  lemma LocalDateBounds(at: Timestamp, offset: int)
    ensures LocalDate(at, offset) * DAY_SECONDS - offset <= at < (LocalDate(at, offset) + 1) * DAY_SECONDS - offset
  {
  }

  lemma LocalDateIs(at: Timestamp, offset: int, date: int)
    requires date * DAY_SECONDS - offset <= at < (date + 1) * DAY_SECONDS - offset
    ensures LocalDate(at, offset) == date
  {
  }

  lemma LocalInstantBounds(date: int, minute: nat, offset: int)
    ensures LocalInstant(date, minute, offset) == date * DAY_SECONDS + Min(minute, 1440) * 60 - offset
    ensures date * DAY_SECONDS - offset <= LocalInstant(date, minute, offset) <= (date + 1) * DAY_SECONDS - offset
  {
  }
}
