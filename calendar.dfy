/**
 * The Gregorian calendar the event views are cut from: dates, their day numbers counted
 * from 1970-01-01, the weekday (Monday first, as Rails' `beginning_of_week` has it), and the
 * seconds that begin and end a day. Times are whole seconds in the application's time zone.
 */
module Calendar {

  const SecondsPerDay: int := 86400

  datatype Date = Date(year: int, month: int, day: int)

  predicate IsLeapYear(y: int) {
    y % 4 == 0 && (y % 100 != 0 || y % 400 == 0)
  }

  function DaysInMonth(y: int, m: int): (n: int)
    requires 1 <= m <= 12
    ensures 28 <= n <= 31
    ensures m == 2 ==> (n == 29 <==> IsLeapYear(y))
  {
    if m == 2 then (if IsLeapYear(y) then 29 else 28)
    else if m == 4 || m == 6 || m == 9 || m == 11 then 30
    else 31
  }

  predicate ValidDate(d: Date) {
    1 <= d.month <= 12 && 1 <= d.day <= DaysInMonth(d.year, d.month)
  }

  /**
   * Days from 1970-01-01 to `d`: years are counted from March so that the leap day closes
   * the year, in 400-year eras of 146097 days.
   */
  function DayNumber(d: Date): int {
    var y := if d.month <= 2 then d.year - 1 else d.year;
    var era := y / 400;
    var yoe := y - era * 400;
    var mp := if d.month > 2 then d.month - 3 else d.month + 9;
    var doy := (153 * mp + 2) / 5 + d.day - 1;
    var doe := yoe * 365 + yoe / 4 - yoe / 100 + doy;
    era * 146097 + doe - 719468
  }

  /** The count starts at the epoch, and the days of a month follow each other. */
  lemma DayNumberFacts(d: Date)
    requires ValidDate(d)
    ensures DayNumber(Date(1970, 1, 1)) == 0
    ensures DayNumber(d) == DayNumber(Date(d.year, d.month, 1)) + d.day - 1
  {
  }

  /** The weekday of a day number, Monday 0 to Sunday 6; 1970-01-01 was a Thursday. */
  function Weekday(n: int): (w: int)
    ensures 0 <= w < 7
  {
    (n + 3) % 7
  }

  /** `beginning_of_week`: the Monday on or before day `n`. */
  function WeekStart(n: int): (r: int)
    ensures r <= n < r + 7
    ensures Weekday(r) == 0
  {
    var w := Weekday(n);
    assert (n - w + 3) % 7 == 0 by {
      var q := (n + 3) / 7;
      assert n + 3 == 7 * q + w;
      assert n - w + 3 == 7 * q;
    }
    n - w
  }

  /** `beginning_of_day`, in seconds. */
  function DayStart(n: int): int {
    n * SecondsPerDay
  }

  /** `end_of_day`: the last whole second of day `n`. */
  function DayEnd(n: int): int {
    n * SecondsPerDay + SecondsPerDay - 1
  }

  /** A second lies in exactly one day, and the days of a range tile its seconds. */
  lemma DaysTile(t: int, first: int, last: int)
    requires first <= last
    ensures DayStart(first) <= t <= DayEnd(last) <==> first <= t / SecondsPerDay <= last
  {
    var q := t / SecondsPerDay;
    assert q * SecondsPerDay <= t < q * SecondsPerDay + SecondsPerDay;
    if first <= q {
      assert first * SecondsPerDay <= q * SecondsPerDay;
    } else {
      assert first * SecondsPerDay >= (q + 1) * SecondsPerDay;
    }
    if q <= last {
      assert q * SecondsPerDay <= last * SecondsPerDay;
    } else {
      assert q * SecondsPerDay >= (last + 1) * SecondsPerDay;
    }
  }

  /** An inclusive range of day numbers. */
  datatype DayRange = DayRange(first: int, last: int)

  /**
   * `index`'s choice of range: "week" gives the Monday-to-Sunday week of the date, "day" the
   * date alone, and any other view, or none, the date's month.
   */
  function ViewRange(view: string, date: Date): (r: DayRange)
    requires ValidDate(date)
    ensures r.first <= DayNumber(date) <= r.last
    ensures view == "week" ==> r.last == r.first + 6 && Weekday(r.first) == 0
    ensures view == "day" ==> r.first == r.last == DayNumber(date)
    ensures view != "week" && view != "day" ==>
      r.first == DayNumber(Date(date.year, date.month, 1))
      && r.last == DayNumber(Date(date.year, date.month, DaysInMonth(date.year, date.month)))
  {
    var n := DayNumber(date);
    if view == "week" then DayRange(WeekStart(n), WeekStart(n) + 6)
    else if view == "day" then DayRange(n, n)
    else
      DayNumberFacts(date);
      DayNumberFacts(Date(date.year, date.month, DaysInMonth(date.year, date.month)));
      DayRange(DayNumber(Date(date.year, date.month, 1)),
               DayNumber(Date(date.year, date.month, DaysInMonth(date.year, date.month))))
  }

  /** A month's range has as many days as the month. */
  lemma MonthRangeLength(date: Date)
    requires ValidDate(date)
    ensures var r := ViewRange("month", date); r.last - r.first + 1 == DaysInMonth(date.year, date.month)
  {
    DayNumberFacts(Date(date.year, date.month, DaysInMonth(date.year, date.month)));
  }
}
