/** The proleptic Gregorian calendar as section 21.4.1 of ECMA-262 defines it for `Date`:
    time values are milliseconds since the epoch, months count from 0. */
module Calendar {
  import opened Arithmetic

  const MS_PER_DAY := 86_400_000
  const MS_PER_HOUR := 3_600_000
  const MS_PER_MINUTE := 60_000
  /** The largest magnitude of a valid time value. */
  const MAX_TIME := 8_640_000_000_000_000

  predicate InLeapYear(y: int) {
    y % 4 == 0 && (y % 100 != 0 || y % 400 == 0)
  }

  function DaysInYear(y: int): int {
    if InLeapYear(y) then 366 else 365
  }

  function DayFromYear(y: int): int {
    365 * (y - 1970) + (y - 1969) / 4 - (y - 1901) / 100 + (y - 1601) / 400
  }

  lemma QuotientStep(a: int, n: int)
    requires n > 1
    ensures (a + 1) / n == a / n + (if (a + 1) % n == 0 then 1 else 0)
  {
    var q, r := a / n, a % n;
    assert a == n * q + r;
    if r == n - 1 {
      assert a + 1 == n * (q + 1);
      Quotient(a + 1, n, q + 1, 0);
    } else {
      Quotient(a + 1, n, q, r + 1);
    }
  }

  lemma YearStep(y: int)
    ensures DayFromYear(y + 1) == DayFromYear(y) + DaysInYear(y)
  {
    QuotientStep(y - 1969, 4);
    QuotientStep(y - 1901, 100);
    QuotientStep(y - 1601, 400);
  }

  lemma {:induction false} YearsAscend(y: int, z: int)
    requires y < z
    ensures DayFromYear(y) + 365 <= DayFromYear(z)
    decreases z - y
  {
    YearStep(z - 1);
    if y < z - 1 {
      YearsAscend(y, z - 1);
    }
  }

  /** The year containing a day: the largest y whose first day is not after it, found from any
      starting point. */
  function YearSearch(day: int, y: int): (r: int)
    ensures DayFromYear(r) <= day < DayFromYear(r + 1)
    decreases day < DayFromYear(y), if day < DayFromYear(y) then DayFromYear(y) - day else day - DayFromYear(y)
  {
    YearStep(y);
    YearStep(y - 1);
    if day < DayFromYear(y) then YearSearch(day, y - 1)
    else if day >= DayFromYear(y + 1) then YearSearch(day, y + 1)
    else y
  }

  function YearFromDay(day: int): int {
    YearSearch(day, 1970)
  }

  lemma YearIsUnique(day: int, y: int)
    requires DayFromYear(y) <= day < DayFromYear(y + 1)
    ensures YearFromDay(day) == y
  {
  }

  /** Days of the year before month m. */
  function DaysBefore(m: int, leap: bool): int
    requires 0 <= m <= 12
  {
    var l := if leap then 1 else 0;
    if m == 0 then 0 else if m == 1 then 31 else if m == 2 then 59 + l else if m == 3 then 90 + l
    else if m == 4 then 120 + l else if m == 5 then 151 + l else if m == 6 then 181 + l
    else if m == 7 then 212 + l else if m == 8 then 243 + l else if m == 9 then 273 + l
    else if m == 10 then 304 + l else if m == 11 then 334 + l else 365 + l
  }

  function DaysInMonth(y: int, m: int): int
    requires 0 <= m < 12
  {
    DaysBefore(m + 1, InLeapYear(y)) - DaysBefore(m, InLeapYear(y))
  }

  function MonthOf(dayInYear: int, leap: bool): (m: int)
    requires 0 <= dayInYear < (if leap then 366 else 365)
    ensures 0 <= m < 12 && DaysBefore(m, leap) <= dayInYear < DaysBefore(m + 1, leap)
  {
    var l := if leap then 1 else 0;
    if dayInYear < 31 then 0 else if dayInYear < 59 + l then 1 else if dayInYear < 90 + l then 2
    else if dayInYear < 120 + l then 3 else if dayInYear < 151 + l then 4 else if dayInYear < 181 + l then 5
    else if dayInYear < 212 + l then 6 else if dayInYear < 243 + l then 7 else if dayInYear < 273 + l then 8
    else if dayInYear < 304 + l then 9 else if dayInYear < 334 + l then 10 else 11
  }

  function DayInYear(day: int): (d: int)
    ensures 0 <= d < DaysInYear(YearFromDay(day))
  {
    YearStep(YearFromDay(day));
    day - DayFromYear(YearFromDay(day))
  }

  function MonthFromDay(day: int): int {
    MonthOf(DayInYear(day), InLeapYear(YearFromDay(day)))
  }

  function DateFromDay(day: int): int {
    DayInYear(day) - DaysBefore(MonthFromDay(day), InLeapYear(YearFromDay(day))) + 1
  }

  function Day(t: int): int { t / MS_PER_DAY }

  function YearFromTime(t: int): int { YearFromDay(Day(t)) }

  function MonthFromTime(t: int): int { MonthFromDay(Day(t)) }

  function DateFromTime(t: int): int { DateFromDay(Day(t)) }

  function HourFromTime(t: int): int { (t / MS_PER_HOUR) % 24 }

  function MinFromTime(t: int): int { (t / MS_PER_MINUTE) % 60 }

  /** MakeDay for a month that needs no carrying; the date may overflow its month. */
  function MakeDay(y: int, m: int, d: int): int
    requires 0 <= m < 12
  {
    DayFromYear(y) + DaysBefore(m, InLeapYear(y)) + d - 1
  }

  function MakeTime(h: int, mi: int, s: int): int {
    h * MS_PER_HOUR + mi * MS_PER_MINUTE + s * 1000
  }

  /** Years 0 to 99 mean 1900 to 1999. */
  function MakeFullYear(y: int): int {
    if 0 <= y <= 99 then 1900 + y else y
  }

  function WallClock(y: int, m: int, d: int, h: int, mi: int, s: int): int
    requires 0 <= m < 12
  {
    MakeDay(y, m, d) * MS_PER_DAY + MakeTime(h, mi, s)
  }

  function DateUTC(y: int, m: int, d: int, h: int, mi: int, s: int): int
    requires 0 <= m < 12
  {
    WallClock(MakeFullYear(y), m, d, h, mi, s)
  }

  /** The parts of a real date come back; those of a date past its month's end do not. */
  lemma PartsOfMakeDay(y: int, m: int, d: int)
    requires 0 <= m < 12 && 1 <= d <= 31
    ensures var day := MakeDay(y, m, d);
            if d <= DaysInMonth(y, m) then
              YearFromDay(day) == y && MonthFromDay(day) == m && DateFromDay(day) == d
            else
              MonthFromDay(day) != m
  {
    var day := MakeDay(y, m, d);
    YearStep(y);
    assert DayFromYear(y) <= day < DayFromYear(y + 1);
    YearIsUnique(day, y);
  }

  /** Every day is the day its parts make. */
  lemma MakeDayOfParts(day: int)
    ensures 1 <= DateFromDay(day) <= DaysInMonth(YearFromDay(day), MonthFromDay(day)) <= 31
    ensures MakeDay(YearFromDay(day), MonthFromDay(day), DateFromDay(day)) == day
  {
  }

  lemma TimeParts(day: int, h: int, mi: int, s: int)
    requires 0 <= h < 24 && 0 <= mi < 60 && 0 <= s < 60
    ensures var t := day * MS_PER_DAY + MakeTime(h, mi, s);
            Day(t) == day && HourFromTime(t) == h && MinFromTime(t) == mi
  {
    var t := day * MS_PER_DAY + MakeTime(h, mi, s);
    Quotient(t, MS_PER_DAY, day, MakeTime(h, mi, s));
    Quotient(t, MS_PER_HOUR, day * 24 + h, mi * MS_PER_MINUTE + s * 1000);
    Quotient(day * 24 + h, 24, day, h);
    Quotient(t, MS_PER_MINUTE, (day * 24 + h) * 60 + mi, s * 1000);
    Quotient((day * 24 + h) * 60 + mi, 60, day * 24 + h, mi);
  }

  /** In-range parts read back from the instant they name; a date past its month's end reads back
      in another month. */
  lemma PartsOfWallClock(y: int, m: int, d: int, h: int, mi: int, s: int)
    requires 0 <= m < 12 && 1 <= d <= 31 && 0 <= h < 24 && 0 <= mi < 60 && 0 <= s < 60
    ensures var t := WallClock(y, m, d, h, mi, s);
            && HourFromTime(t) == h && MinFromTime(t) == mi
            && if d <= DaysInMonth(y, m) then
                 YearFromTime(t) == y && MonthFromTime(t) == m && DateFromTime(t) == d
               else
                 MonthFromTime(t) != m
  {
    TimeParts(MakeDay(y, m, d), h, mi, s);
    PartsOfMakeDay(y, m, d);
  }

  /** Every instant is the one its parts make, up to the seconds they leave out. */
  lemma TimeOfParts(t: int)
    ensures 0 <= HourFromTime(t) < 24 && 0 <= MinFromTime(t) < 60
    ensures 1 <= DateFromTime(t) <= DaysInMonth(YearFromTime(t), MonthFromTime(t)) <= 31
    ensures WallClock(YearFromTime(t), MonthFromTime(t), DateFromTime(t), HourFromTime(t), MinFromTime(t), 0) ==
            t - t % MS_PER_MINUTE
  {
    MakeDayOfParts(Day(t));
    DayAndTime(t);
  }

  lemma DayAndTime(t: int)
    ensures Day(t) * MS_PER_DAY + MakeTime(HourFromTime(t), MinFromTime(t), 0) == t - t % MS_PER_MINUTE
  {
  }
}
