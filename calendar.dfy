/**
 * Calendar dates as day numbers.
 *
 * The application stores dates as `YYYY-MM-DD` strings and turns them into
 * JavaScript `Date` values only to ask for the day of the week, the month and
 * the year. Here a date is the number of days since 1970-01-01 (a Thursday),
 * so that comparing two dates is comparing two integers, exactly as comparing
 * two zero-padded `YYYY-MM-DD` strings is.
 */
module Calendar {

  /** Days since 1970-01-01. */
  type Day = int

  /** Milliseconds in one day, as the source writes `1000 * 60 * 60 * 24`. */
  const MsPerDay: int := 86400000

  /** Day of the week numbered as `Date.getDay()` does: 0 is Sunday, 6 is Saturday. */
  function Weekday(d: Day): int
  {
    (d + 4) % 7
  }

  predicate IsWeekend(d: Day)
  {
    Weekday(d) == 0 || Weekday(d) == 6
  }

  /** Moving `k` days ahead moves the day of the week `k` places, modulo 7. */
  lemma WeekdayShift(d: Day, k: int)
    ensures Weekday(d + k) == (Weekday(d) + k) % 7
  {
    var q := (d + 4) / 7;
    assert d + 4 == 7 * q + Weekday(d);
    assert d + k + 4 == 7 * q + (Weekday(d) + k);
  }

  /**
   * The Monday that starts the week of `d`: the source subtracts the day of
   * the week and adds one, or goes back six days from a Sunday.
   */
  function StartOfWeek(d: Day): (monday: Day)
    ensures Weekday(monday) == 1
    ensures monday <= d < monday + 7
  {
    var dow := Weekday(d);
    var m := d - dow + (if dow == 0 then -6 else 1);
    WeekdayShift(d, m - d);
    m
  }

  /** (year, month 1..12, day of month) of a day number in the proleptic Gregorian calendar. */
  function Civil(d: Day): (int, int, int)
  {
    var z := d + 719468;
    var era := z / 146097;
    var doe := z - era * 146097;
    var yoe := (doe - doe / 1460 + doe / 36524 - doe / 146096) / 365;
    var doy := doe - (365 * yoe + yoe / 4 - yoe / 100);
    var mp := (5 * doy + 2) / 153;
    var dom := doy - (153 * mp + 2) / 5 + 1;
    var m := if mp < 10 then mp + 3 else mp - 9;
    (yoe + era * 400 + (if m <= 2 then 1 else 0), m, dom)
  }

  function Year(d: Day): int
  {
    Civil(d).0
  }

  function Month(d: Day): int
  {
    Civil(d).1
  }
}
