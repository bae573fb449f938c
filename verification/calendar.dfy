/** The proleptic Gregorian calendar over integer day numbers.
    Day 0 is 1970-01-01, a Thursday; instants are milliseconds since that midnight. */
module Calendar {

  /** A calendar day, counted from 1970-01-01. */
  type Day = int

  /** A point in time, in milliseconds from 1970-01-01T00:00:00.000. */
  type Instant = int

  const MsPerMinute: int := 60000
  const MsPerHour: int := 3600000
  const MsPerDay: int := 86400000

  /** The day an instant falls on. */
  function DayOf(t: Instant): (d: Day)
    ensures StartOfDay(d) <= t < StartOfDay(d + 1)
  {
    t / MsPerDay
  }

  /** Midnight at the start of day `d` (`setHours(0, 0, 0, 0)`). */
  function StartOfDay(d: Day): Instant {
    d * MsPerDay
  }

  /** Every instant of day `d` maps back to `d`. */
  lemma DayOfWithinDay(d: Day, t: Instant)
    requires StartOfDay(d) <= t < StartOfDay(d + 1)
    ensures DayOf(t) == d
  {
  }

  /** Instants compare like their days whenever the days differ. */
  lemma DayOfMonotone(s: Instant, t: Instant)
    requires s <= t
    ensures DayOf(s) <= DayOf(t)
  {
  }

  predicate IsLeapYear(y: int) {
    y % 4 == 0 && (y % 100 != 0 || y % 400 == 0)
  }

  function YearLength(y: int): int {
    if IsLeapYear(y) then 366 else 365
  }

  /** A shifted count of the leap years before `y`; only differences of it matter. */
  function LeapYearsBefore(y: int): int {
    (y - 1) / 4 - (y - 1) / 100 + (y - 1) / 400
  }

  /** Days from 1970-01-01 to January 1st of year `y` (negative before 1970). */
  function DaysBeforeYear(y: int): int {
    365 * (y - 1970) + LeapYearsBefore(y) - LeapYearsBefore(1970)
  }

  lemma FloorStep4(y: int)
    ensures y / 4 - (y - 1) / 4 == if y % 4 == 0 then 1 else 0
  {
  }

  lemma FloorStep100(y: int)
    ensures y / 100 - (y - 1) / 100 == if y % 100 == 0 then 1 else 0
  {
  }

  lemma FloorStep400(y: int)
    ensures y / 400 - (y - 1) / 400 == if y % 400 == 0 then 1 else 0
  {
  }

  lemma DaysBeforeNextYear(y: int)
    ensures DaysBeforeYear(y + 1) == DaysBeforeYear(y) + YearLength(y)
  {
    FloorStep4(y);
    FloorStep100(y);
    FloorStep400(y);
  }

  lemma {:induction false} DaysBeforeYearMonotone(a: int, b: int)
    requires a < b
    ensures DaysBeforeYear(a + 1) <= DaysBeforeYear(b)
    decreases b - a
  {
    if a + 1 < b {
      DaysBeforeYearMonotone(a + 1, b);
      DaysBeforeNextYear(a + 1);
    }
  }

  function DaysInMonth(y: int, m: int): int
    requires 1 <= m <= 12
  {
    if m == 2 then (if IsLeapYear(y) then 29 else 28)
    else if m == 4 || m == 6 || m == 9 || m == 11 then 30
    else 31
  }

  /** Days of year `y` before the first of month `m`; month 13 closes the year. */
  function DaysBeforeMonth(y: int, m: int): int
    requires 1 <= m <= 13
  {
    var common :=
      if m == 1 then 0 else if m == 2 then 31 else if m == 3 then 59
      else if m == 4 then 90 else if m == 5 then 120 else if m == 6 then 151
      else if m == 7 then 181 else if m == 8 then 212 else if m == 9 then 243
      else if m == 10 then 273 else if m == 11 then 304 else if m == 12 then 334
      else 365;
    if m > 2 && IsLeapYear(y) then common + 1 else common
  }

  lemma DaysBeforeNextMonth(y: int, m: int)
    requires 1 <= m <= 12
    ensures DaysBeforeMonth(y, m + 1) == DaysBeforeMonth(y, m) + DaysInMonth(y, m)
    ensures DaysBeforeMonth(y, 13) == YearLength(y)
  {
  }

  datatype Date = Date(year: int, month: int, day: int)

  /** `month` is 1..12 and `day` exists in that month: no 31st of a 30-day month, no February 30th. */
  predicate ValidDate(dt: Date) {
    1 <= dt.month <= 12 && 1 <= dt.day <= DaysInMonth(dt.year, dt.month)
  }

  function DaysFromCivil(dt: Date): Day
    requires 1 <= dt.month <= 12
  {
    DaysBeforeYear(dt.year) + DaysBeforeMonth(dt.year, dt.month) + dt.day - 1
  }

  function FindYearUp(z: Day, y: int): (r: int)
    requires DaysBeforeYear(y) <= z
    ensures DaysBeforeYear(r) <= z < DaysBeforeYear(r + 1)
    decreases z - DaysBeforeYear(y)
  {
    DaysBeforeNextYear(y);
    if z < DaysBeforeYear(y + 1) then y else FindYearUp(z, y + 1)
  }

  function FindYearDown(z: Day, y: int): (r: int)
    requires z < DaysBeforeYear(y + 1)
    ensures DaysBeforeYear(r) <= z < DaysBeforeYear(r + 1)
    decreases DaysBeforeYear(y + 1) - z
  {
    DaysBeforeNextYear(y);
    if DaysBeforeYear(y) <= z then y else FindYearDown(z, y - 1)
  }

  /** The year containing day `z`, searched from an estimate. */
  function YearOfDay(z: Day): (y: int)
    ensures DaysBeforeYear(y) <= z < DaysBeforeYear(y + 1)
  {
    var guess := 1970 + (400 * z) / 146097;
    if DaysBeforeYear(guess) <= z then FindYearUp(z, guess) else FindYearDown(z, guess - 1)
  }

  function FindMonth(y: int, doy: int, m: int): (r: int)
    requires 1 <= m <= 12 && DaysBeforeMonth(y, m) <= doy < YearLength(y)
    ensures m <= r <= 12 && DaysBeforeMonth(y, r) <= doy < DaysBeforeMonth(y, r + 1)
    decreases 12 - m
  {
    DaysBeforeNextMonth(y, m);
    if doy < DaysBeforeMonth(y, m + 1) then m else FindMonth(y, doy, m + 1)
  }

  /** The calendar date of day `z`: a valid date that maps back to `z`. */
  function CivilFromDays(z: Day): (dt: Date)
    ensures ValidDate(dt) && DaysFromCivil(dt) == z
  {
    var y := YearOfDay(z);
    DaysBeforeNextYear(y);
    var doy := z - DaysBeforeYear(y);
    var m := FindMonth(y, doy, 1);
    DaysBeforeNextMonth(y, m);
    Date(y, m, doy - DaysBeforeMonth(y, m) + 1)
  }

  /** The other half of the round trip: every valid date is the date of its own day number. */
  lemma CivilRoundTrip(dt: Date)
    requires ValidDate(dt)
    ensures CivilFromDays(DaysFromCivil(dt)) == dt
  {
    DaysFromCivilInjective(CivilFromDays(DaysFromCivil(dt)), dt);
  }

  lemma DaysBeforeMonthMonotone(y: int, a: int, b: int)
    requires 1 <= a <= b <= 13
    ensures DaysBeforeMonth(y, a) <= DaysBeforeMonth(y, b)
  {
  }

  /** Day numbers of valid dates are distinct. */
  lemma DaysFromCivilInjective(a: Date, b: Date)
    requires ValidDate(a) && ValidDate(b) && DaysFromCivil(a) == DaysFromCivil(b)
    ensures a == b
  {
    SameYear(a, b);
    SameMonth(a, b);
  }

  /** The day number of a valid date falls within its own year. */
  lemma WithinYear(dt: Date)
    requires ValidDate(dt)
    ensures DaysBeforeYear(dt.year) <= DaysFromCivil(dt) < DaysBeforeYear(dt.year + 1)
  {
    DaysBeforeNextMonth(dt.year, dt.month);
    DaysBeforeMonthMonotone(dt.year, dt.month + 1, 13);
    DaysBeforeNextYear(dt.year);
  }

  lemma SameYear(a: Date, b: Date)
    requires ValidDate(a) && ValidDate(b) && DaysFromCivil(a) == DaysFromCivil(b)
    ensures a.year == b.year
  {
    WithinYear(a);
    WithinYear(b);
    if a.year < b.year {
      DaysBeforeYearMonotone(a.year, b.year);
    } else if a.year > b.year {
      DaysBeforeYearMonotone(b.year, a.year);
    }
  }

  lemma SameMonth(a: Date, b: Date)
    requires ValidDate(a) && ValidDate(b) && a.year == b.year
    requires DaysBeforeMonth(a.year, a.month) + a.day == DaysBeforeMonth(b.year, b.month) + b.day
    ensures a.month == b.month
  {
    DaysBeforeNextMonth(a.year, a.month);
    DaysBeforeNextMonth(b.year, b.month);
    if a.month < b.month {
      DaysBeforeMonthMonotone(a.year, a.month + 1, b.month);
    } else if a.month > b.month {
      DaysBeforeMonthMonotone(a.year, b.month + 1, a.month);
    }
  }

  function Year(z: Day): int { CivilFromDays(z).year }

  /** Month of day `z`, 1..12 (JavaScript's `getMonth()` is this minus one). */
  function Month(z: Day): int { CivilFromDays(z).month }

  /** Day of the month of day `z` (`getDate()`). */
  function DayOfMonth(z: Day): int { CivilFromDays(z).day }

  /** Day of the week of day `z` (`getDay()`): 0 is Sunday, 4 is Thursday. */
  function Weekday(z: Day): (w: int)
    ensures 0 <= w < 7
  {
    (z + 4) % 7
  }

  /** Weekdays cycle: the next day is one weekday later, and 1970-01-01 was a Thursday. */
  lemma WeekdayCycle(z: Day)
    ensures Weekday(z + 1) == (Weekday(z) + 1) % 7
    ensures Weekday(z + 7) == Weekday(z)
    ensures Weekday(0) == 4
  {
  }

  /** A day-of-month of 31 only occurs in the seven 31-day months; 30 and 31 never occur in February. */
  lemma LongDayOfMonthOnlyInLongMonths(z: Day)
    ensures DayOfMonth(z) == 31 ==> Month(z) in {1, 3, 5, 7, 8, 10, 12}
    ensures DayOfMonth(z) >= 30 ==> Month(z) != 2
    ensures DayOfMonth(z) == 29 && Month(z) == 2 ==> IsLeapYear(Year(z))
  {
  }
}
