/**
  Invoice timestamps are whole seconds since 1970-01-01T00:00:00 (a naive pandas
  `datetime64`). This module gives the two calendar facts the profile needs:
  whole-day gaps (`Timedelta.days`) and the calendar month (`Series.dt.month`).
 */
module Calendar {

  const SecondsPerDay: int := 86400

  /**
    Whole days from `from` to `to` as pandas `Timedelta.days` reports them: the floor
    of the difference, so a gap one second short of a day is 0 and a gap of minus
    one second is -1.
   */
  function DayGap(from: int, to: int): (d: int)
    ensures d * SecondsPerDay <= to - from < (d + 1) * SecondsPerDay
    ensures from <= to ==> d >= 0
  {
    (to - from) / SecondsPerDay
  }

  /** Days since 1970-01-01 of the day containing `ts`. */
  function DayNumber(ts: int): (n: int)
    ensures n * SecondsPerDay <= ts < (n + 1) * SecondsPerDay
  {
    ts / SecondsPerDay
  }

  predicate IsLeapYear(y: int)
  {
    y % 4 == 0 && (y % 100 != 0 || y % 400 == 0)
  }

  function DaysInYear(y: int): int
  {
    if IsLeapYear(y) then 366 else 365
  }

  /**
    Days from 1970-01-01 to 1 January of year `y`: the lengths of the years
    1970 .. y - 1 added up, or those of y .. 1969 subtracted for earlier years.
   */
  function DaysBefore(y: int): int
    decreases if y >= 1970 then y - 1970 else 1970 - y
  {
    if y == 1970 then 0
    else if y > 1970 then DaysBefore(y - 1) + DaysInYear(y - 1)
    else DaysBefore(y + 1) - DaysInYear(y)
  }

  /** Consecutive years start one year length apart. */
  lemma DaysBeforeStep(y: int)
    ensures DaysBefore(y + 1) == DaysBefore(y) + DaysInYear(y)
  {
  }

  /**
    The year and zero-based day of year of the day `d` days after 1 January of year
    `y`: the same day, counted from 1970-01-01, with its offset inside the year.
   */
  function YearAndDay(y: int, d: int): (r: (int, int))
    ensures 0 <= r.1 < DaysInYear(r.0)
    ensures DaysBefore(r.0) + r.1 == DaysBefore(y) + d
    decreases if d >= 0 then d else 366 - d
  {
    if d < 0 then
      DaysBeforeStep(y - 1);
      YearAndDay(y - 1, d + DaysInYear(y - 1))
    else if d >= DaysInYear(y) then
      DaysBeforeStep(y);
      YearAndDay(y + 1, d - DaysInYear(y))
    else (y, d)
  }

  /** Zero-based day of year on which month `m` begins. */
  function MonthStart(m: int, leap: bool): int
    requires 1 <= m <= 12
  {
    [0, 31, 59, 90, 120, 151, 181, 212, 243, 273, 304, 334][m - 1] + (if leap && m >= 3 then 1 else 0)
  }

  /** The last month among 1..m that begins on or before day `doy`. */
  function MonthScan(doy: int, leap: bool, m: int): (r: int)
    requires 1 <= m <= 12
    requires 0 <= doy
    ensures 1 <= r <= m
    ensures MonthStart(r, leap) <= doy
    ensures r < m ==> doy < MonthStart(r + 1, leap)
    decreases m
  {
    if m == 1 || MonthStart(m, leap) <= doy then m else MonthScan(doy, leap, m - 1)
  }

  /**
    `Series.dt.month`: the calendar month 1..12 of the day holding `ts`, which is the
    month whose day range contains the day's position in its year. The year is
    dropped, so December 2010 and December 2011 share month 12.
   */
  function CalendarMonth(ts: int): (m: int)
    ensures 1 <= m <= 12
    ensures var yd := YearAndDay(1970, DayNumber(ts));
            && DaysBefore(yd.0) + yd.1 == DayNumber(ts)
            && 0 <= yd.1 < DaysInYear(yd.0)
            && MonthStart(m, IsLeapYear(yd.0)) <= yd.1
            && (m < 12 ==> yd.1 < MonthStart(m + 1, IsLeapYear(yd.0)))
  {
    var yd := YearAndDay(1970, DayNumber(ts));
    MonthScan(yd.1, IsLeapYear(yd.0), 12)
  }
}
