/** Pure calendar arithmetic on the proleptic Gregorian calendar, standing for chrono's
    `NaiveDate::weekday` and the `days_in_month` crate used by the calendar report. */
module Calendar {

  predicate IsLeapYear(year: int)
  {
    year % 4 == 0 && (year % 100 != 0 || year % 400 == 0)
  }

  /** `days_in_month(year, month)` */
  function DaysInMonth(year: int, month: int): (n: int)
    requires 1 <= month <= 12
    ensures 28 <= n <= 31
    ensures n == 29 <==> month == 2 && IsLeapYear(year)
  {
    if month == 2 then (if IsLeapYear(year) then 29 else 28)
    else if month == 4 || month == 6 || month == 9 || month == 11 then 30
    else 31
  }

  predicate IsDate(year: int, month: int, day: int)
  {
    1 <= month <= 12 && 1 <= day <= DaysInMonth(year, month)
  }

  /** Days since 1970-01-01 (negative before it), by the usual era/day-of-era decomposition;
      Dafny's `/` and `%` with a positive divisor are floor division, as the algorithm needs. */
  function DaysFromCivil(year: int, month: int, day: int): int
    requires 1 <= month <= 12
  {
    var y := if month <= 2 then year - 1 else year;
    var era := y / 400;
    var yoe := y - era * 400;
    var mp := if month > 2 then month - 3 else month + 9;
    var doy := (153 * mp + 2) / 5 + day - 1;
    var doe := yoe * 365 + yoe / 4 - yoe / 100 + doy;
    era * 146097 + doe - 719468
  }

  /** `weekday().num_days_from_sunday()`: 0 is Sunday, 6 is Saturday (1970-01-01 was a Thursday). */
  function Weekday(year: int, month: int, day: int): (w: int)
    requires 1 <= month <= 12
    ensures 0 <= w < 7
  {
    (DaysFromCivil(year, month, day) + 4) % 7
  }

  const Sunday := 0

  /** Within a month, each day is one weekday after the previous one. */
  lemma NextDayWeekday(year: int, month: int, day: int)
    requires 1 <= month <= 12
    ensures DaysFromCivil(year, month, day + 1) == DaysFromCivil(year, month, day) + 1
    ensures Weekday(year, month, day + 1) == (Weekday(year, month, day) + 1) % 7
  {
  }

  /** Two fixed points of the calendar: the epoch and the day used by the command tests. */
  lemma KnownWeekdays()
    ensures DaysFromCivil(1970, 1, 1) == 0 && Weekday(1970, 1, 1) == 4
    ensures Weekday(2023, 1, 1) == Sunday
    ensures Weekday(2023, 6, 30) == 5 && Weekday(2023, 7, 1) == 6
  {
  }
}
