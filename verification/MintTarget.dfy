/** The GMT+7 wall clock an operator types, to and from the UTC instant that is stored
    (apps/web/src/lib/mint-target.ts). */
module MintTarget {
  import opened Calendar
  import opened Text
  import opened Wrappers

  const GMT7_OFFSET_MS := 7 * 60 * 60_000
  const LETTER_T: Unit := 84

  // ----- Parsing -----

  predicate DigitsAt(v: JsString, i: nat, j: nat)
    requires i <= j <= |v|
  {
    AllDigits(v[i..j])
  }

  /** YYYY-MM-DDTHH:mm with optional :ss. */
  predicate WellFormed(v: JsString) {
    && (|v| == 16 || (|v| == 19 && v[16] == COLON && DigitsAt(v, 17, 19)))
    && DigitsAt(v, 0, 4) && v[4] == MINUS && DigitsAt(v, 5, 7) && v[7] == MINUS && DigitsAt(v, 8, 10)
    && v[10] == LETTER_T && DigitsAt(v, 11, 13) && v[13] == COLON && DigitsAt(v, 14, 16)
  }

  datatype Fields = Fields(year: nat, month: nat, day: nat, hour: nat, minute: nat, second: nat)

  function FieldsOf(v: JsString): Fields
    requires WellFormed(v)
  {
    Fields(FromDecimal(v[0..4]), FromDecimal(v[5..7]), FromDecimal(v[8..10]), FromDecimal(v[11..13]),
           FromDecimal(v[14..16]), if |v| == 19 then FromDecimal(v[17..19]) else 0)
  }

  /** From the parsed numbers on: range checks, then a round trip to reject dates such as 30 February. */
  function FieldsToUtc(f: Fields): Option<int> {
    if f.month < 1 || f.month > 12 || f.day < 1 || f.day > 31 || f.hour > 23 || f.minute > 59 || f.second > 59 then None
    else
      var asUtcWallClock := DateUTC(f.year, f.month - 1, f.day, f.hour, f.minute, f.second);
      if YearFromTime(asUtcWallClock) != f.year || MonthFromTime(asUtcWallClock) != f.month - 1 ||
         DateFromTime(asUtcWallClock) != f.day
      then None
      else Some(asUtcWallClock - GMT7_OFFSET_MS)
  }

  function Gmt7LocalToUtc(value: JsString): Option<int> {
    var v := Trim(value);
    if WellFormed(v) then FieldsToUtc(FieldsOf(v)) else None
  }

  /** A date and time that exist. */
  predicate Real(f: Fields) {
    && 1 <= f.month <= 12 && 1 <= f.day <= DaysInMonth(f.year, f.month - 1)
    && f.hour <= 23 && f.minute <= 59 && f.second <= 59
  }

  /** The instant at which a GMT+7 clock shows the fields. */
  function InstantOf(f: Fields): int
    requires Real(f)
  {
    WallClock(f.year, f.month - 1, f.day, f.hour, f.minute, f.second) - GMT7_OFFSET_MS
  }

  lemma FieldsAcceptedExactly(f: Fields)
    ensures FieldsToUtc(f) == if Real(f) && f.year >= 100 then Some(InstantOf(f)) else None
  {
    hide YearFromTime, MonthFromTime, DateFromTime, HourFromTime, MinFromTime, WallClock;
    if 1 <= f.month <= 12 {
      MonthsAreAtMost31(f.year, f.month - 1);
      if 1 <= f.day <= 31 && f.hour <= 23 && f.minute <= 59 && f.second <= 59 {
        PartsOfWallClock(MakeFullYear(f.year), f.month - 1, f.day, f.hour, f.minute, f.second);
      }
    }
  }

  /** Accepted are exactly the well-formed strings naming a date and time that exist, from the year
      100 on: the years 0 to 99 are moved to the twentieth century and so fail the round trip. */
  lemma AcceptsExactlyRealDates(value: JsString)
    ensures var v := Trim(value);
            Gmt7LocalToUtc(value) ==
              if WellFormed(v) && Real(FieldsOf(v)) && FieldsOf(v).year >= 100 then Some(InstantOf(FieldsOf(v)))
              else None
  {
    if WellFormed(Trim(value)) {
      FieldsAcceptedExactly(FieldsOf(Trim(value)));
    }
  }

  lemma MonthsAreAtMost31(y: int, m: int)
    requires 0 <= m < 12
    ensures DaysInMonth(y, m) <= 31
  {
  }

  // ----- The instant, counted in days -----

  function YearLength(y: int): int {
    if (y % 4 == 0 && y % 100 != 0) || y % 400 == 0 then 366 else 365
  }

  /** January is month 1. */
  function MonthLength(y: int, m: int): int {
    if m == 2 then (if YearLength(y) == 366 then 29 else 28)
    else if m in {4, 6, 9, 11} then 30
    else 31
  }

  /** The days of the years from 1970 up to y, negative for those before. */
  function DaysOfYears(y: int): int
    decreases if y >= 1970 then y - 1970 else 1970 - y
  {
    if y == 1970 then 0
    else if y > 1970 then DaysOfYears(y - 1) + YearLength(y - 1)
    else DaysOfYears(y + 1) - YearLength(y)
  }

  /** The days of the months of year y before month m. */
  function DaysOfMonths(y: int, m: nat): int {
    if m <= 1 then 0 else DaysOfMonths(y, m - 1) + MonthLength(y, m - 1)
  }

  lemma YearLengthsAgree(y: int)
    ensures YearLength(y) == DaysInYear(y)
  {
  }

  lemma EpochYear()
    ensures DayFromYear(1970) == 0
  {
  }

  lemma {:induction false} YearsAreCounted(y: int)
    ensures DayFromYear(y) == DaysOfYears(y)
    decreases if y >= 1970 then y - 1970 else 1970 - y
  {
    hide DayFromYear, DaysInYear, YearLength;
    EpochYear();
    YearLengthsAgree(y);
    YearLengthsAgree(y - 1);
    if y > 1970 {
      YearsAreCounted(y - 1);
      YearStep(y - 1);
    } else if y < 1970 {
      YearsAreCounted(y + 1);
      YearStep(y);
    }
  }

  lemma {:induction false} MonthsAreCounted(y: int, m: nat)
    requires 1 <= m <= 12
    ensures DaysBefore(m - 1, InLeapYear(y)) == DaysOfMonths(y, m) && DaysInMonth(y, m - 1) == MonthLength(y, m)
  {
    if m > 1 {
      MonthsAreCounted(y, m - 1);
    }
  }

  /** The accepted dates are those of the calendar's table of month lengths, and the stored instant is
      the number of days since 1 January 1970, times a day, plus the time of day, minus seven hours. */
  lemma InstantCountsDays(f: Fields)
    ensures Real(f) <==>
            && 1 <= f.month <= 12 && 1 <= f.day <= MonthLength(f.year, f.month)
            && f.hour < 24 && f.minute < 60 && f.second < 60
    ensures Real(f) ==>
            InstantOf(f) ==
            (DaysOfYears(f.year) + DaysOfMonths(f.year, f.month) + f.day - 1) * 86_400_000
            + f.hour * 3_600_000 + f.minute * 60_000 + f.second * 1000 - 25_200_000
    ensures Real(f) && f.year >= 100 ==> FieldsToUtc(f) == Some(InstantOf(f))
  {
    hide FieldsToUtc, DaysOfYears, DaysOfMonths, DayFromYear, DaysBefore, InLeapYear, MonthLength, DaysInMonth;
    FieldsAcceptedExactly(f);
    if 1 <= f.month <= 12 {
      YearsAreCounted(f.year);
      MonthsAreCounted(f.year, f.month);
    }
  }

  // ----- Printing -----

  /** n in exactly k decimal digits. */
  function Padded(n: nat, k: nat): (s: JsString)
    ensures |s| == k && AllDigits(s)
  {
    if k == 0 then [] else Padded(n / 10, k - 1) + [ZERO + n % 10]
  }

  lemma {:induction false} PaddedReadsBack(n: nat, k: nat)
    requires n < Pow10(k)
    ensures FromDecimal(Padded(n, k)) == n
  {
    if k > 0 {
      PaddedReadsBack(n / 10, k - 1);
      assert Padded(n, k)[..k - 1] == Padded(n / 10, k - 1);
    }
  }

  lemma {:induction false} ReadPadsBack(s: JsString)
    requires AllDigits(s)
    ensures Padded(FromDecimal(s), |s|) == s
    decreases |s|
  {
    if s != [] {
      var front, last := s[..|s| - 1], s[|s| - 1];
      ReadPadsBack(front);
      assert FromDecimal(s) / 10 == FromDecimal(front) && FromDecimal(s) % 10 == last - ZERO;
      assert s == front + [last];
    }
  }

  /** The first 16 units of `toISOString`, whose year has a sign and six digits outside 0..9999. */
  function Iso16(t: int): JsString {
    var y := YearFromTime(t);
    var rest := [MINUS] + Padded(MonthFromTime(t) + 1, 2) + [MINUS] + Padded(DateFromTime(t), 2) + [LETTER_T] +
                Padded(HourFromTime(t), 2) + [COLON] + Padded(MinFromTime(t), 2);
    if 0 <= y <= 9999 then Padded(y, 4) + rest
    else ([if y < 0 then MINUS else 43] + Padded(if y < 0 then -y else y, 6) + rest)[..16]
  }

  datatype IsoError = RangeError

  /** `None` is a `Date` whose time value is NaN. Shifting the last hours of the range out of it
      makes `toISOString` throw. */
  function UtcToGmt7LocalInput(date: Option<int>): Result<JsString, IsoError>
  {
    match date
    case None => Ok([])
    case Some(t) =>
      if t + GMT7_OFFSET_MS > MAX_TIME then Err(RangeError) else Ok(Iso16(t + GMT7_OFFSET_MS))
  }

  // ----- Round trips -----

  /** The 16 units that name a minute. */
  function Render(f: Fields): JsString {
    Padded(f.year, 4) + [MINUS] + Padded(f.month, 2) + [MINUS] + Padded(f.day, 2) + [LETTER_T] +
    Padded(f.hour, 2) + [COLON] + Padded(f.minute, 2)
  }

  lemma RenderReadsBack(f: Fields)
    requires f.year <= 9999 && f.month <= 99 && f.day <= 99 && f.hour <= 99 && f.minute <= 99
    ensures var v := Render(f); WellFormed(v) && Trim(v) == v && FieldsOf(v) == f.(second := 0)
  {
    var v := Render(f);
    assert v[0..4] == Padded(f.year, 4);
    assert v[5..7] == Padded(f.month, 2);
    assert v[8..10] == Padded(f.day, 2);
    assert v[11..13] == Padded(f.hour, 2);
    assert v[14..16] == Padded(f.minute, 2);
    assert Pow10(4) == 10_000 && Pow10(2) == 100 by {
      assert Pow10(1) == 10 && Pow10(3) == 1000;
    }
    PaddedReadsBack(f.year, 4);
    PaddedReadsBack(f.month, 2);
    PaddedReadsBack(f.day, 2);
    PaddedReadsBack(f.hour, 2);
    PaddedReadsBack(f.minute, 2);
    assert IsDigit(v[0]) by { assert v[0] == v[0..4][0]; }
    assert IsDigit(v[15]) by { assert v[15] == v[14..16][1]; }
    TrimKeepsTight(v);
  }

  lemma ReadRendersBack(v: JsString)
    requires WellFormed(v)
    ensures Render(FieldsOf(v)) == v[..16]
  {
    ReadPadsBack(v[0..4]);
    ReadPadsBack(v[5..7]);
    ReadPadsBack(v[8..10]);
    ReadPadsBack(v[11..13]);
    ReadPadsBack(v[14..16]);
    SplitMinute(v);
  }

  lemma SplitMinute(v: JsString)
    requires |v| >= 16
    ensures v[..16] == v[0..4] + [v[4]] + v[5..7] + [v[7]] + v[8..10] + [v[10]] + v[11..13] + [v[13]] + v[14..16]
  {
  }

  lemma IsoIsRender(t: int, f: Fields)
    requires 0 <= YearFromTime(t) <= 9999
    requires f.year == YearFromTime(t) && f.month == MonthFromTime(t) + 1 && f.day == DateFromTime(t)
    requires f.hour == HourFromTime(t) && f.minute == MinFromTime(t)
    ensures Iso16(t) == Render(f)
  {
  }

  lemma IsoOfInstant(f: Fields)
    requires Real(f) && f.year <= 9999
    ensures Iso16(InstantOf(f) + GMT7_OFFSET_MS) == Render(f)
  {
    hide YearFromTime, MonthFromTime, DateFromTime, HourFromTime, MinFromTime, WallClock;
    MonthsAreAtMost31(f.year, f.month - 1);
    PartsOfWallClock(f.year, f.month - 1, f.day, f.hour, f.minute, f.second);
    IsoIsRender(WallClock(f.year, f.month - 1, f.day, f.hour, f.minute, f.second), f);
  }

  lemma {:induction false} FourDigitYear(v: JsString)
    requires WellFormed(v)
    ensures FieldsOf(v).year <= 9999
  {
    FromDecimalBound(v[0..4]);
    assert Pow10(4) == 10_000 by { assert Pow10(1) == 10 && Pow10(2) == 100 && Pow10(3) == 1000; }
  }

  /** Every date and time of the years 0 to 99 exists, is well formed, and is not accepted. */
  lemma EarlyYearsAreRejected(f: Fields)
    requires Real(f) && f.year <= 99
    ensures WellFormed(Render(f)) && FieldsOf(Render(f)) == f.(second := 0) && Gmt7LocalToUtc(Render(f)).None?
  {
    MonthsAreAtMost31(f.year, f.month - 1);
    hide Gmt7LocalToUtc, WellFormed, FieldsOf, InstantOf, Render, Trim, DaysInMonth;
    RenderReadsBack(f);
    AcceptsExactlyRealDates(Render(f));
  }

  lemma TwoDigits(n: nat)
    requires n < 100
    ensures Padded(n, 2) == [ZERO + n / 10, ZERO + n % 10]
  {
    assert Padded(n / 10, 1) == [] + [ZERO + n / 10];
  }

  lemma YearFiftyRenders()
    ensures Lit("0050-01-01T00:00") == Render(Fields(50, 1, 1, 0, 0, 0))
  {
    TwoDigits(0);
    TwoDigits(1);
    assert Padded(50, 4) == Padded(0, 2) + [53] + [48];
    hide Padded;
    SplitMinute(Lit("0050-01-01T00:00"));
  }

  /** For instance, midnight on New Year's Day of the year 50. */
  lemma YearFiftyIsRejected()
    ensures var v := Lit("0050-01-01T00:00");
            WellFormed(v) && Real(FieldsOf(v)) && FieldsOf(v).year == 50 && Gmt7LocalToUtc(v).None?
  {
    hide Gmt7LocalToUtc, WellFormed, FieldsOf, Render;
    YearFiftyRenders();
    EarlyYearsAreRejected(Fields(50, 1, 1, 0, 0, 0));
  }

  lemma EpochRenders()
    ensures Lit("1970-01-01T07:00") == Render(Fields(1970, 1, 1, 7, 0, 0))
  {
    TwoDigits(0);
    TwoDigits(1);
    TwoDigits(7);
    TwoDigits(19);
    assert Padded(1970, 4) == Padded(19, 2) + [55] + [48];
    hide Padded;
    SplitMinute(Lit("1970-01-01T07:00"));
  }

  /** Seven in the morning of 1 January 1970 is the epoch. */
  lemma EpochIsZero()
    ensures Gmt7LocalToUtc(Lit("1970-01-01T07:00")) == Some(0)
  {
    var f := Fields(1970, 1, 1, 7, 0, 0);
    EpochRenders();
    InstantCountsDays(f);
    hide Render, WellFormed, FieldsOf, FieldsToUtc, Padded, Trim;
    RenderReadsBack(f);
  }

  lemma SecondsReadBack(f: Fields)
    requires Real(f) && f.year <= 9999
    ensures var v := Render(f) + [COLON] + Padded(f.second, 2);
            WellFormed(v) && Trim(v) == v && FieldsOf(v) == f && v[..16] == Render(f)
  {
    MonthsAreAtMost31(f.year, f.month - 1);
    RenderReadsBack(f);
    var u, v := Render(f), Render(f) + [COLON] + Padded(f.second, 2);
    assert |u| == 16 && v[17..19] == Padded(f.second, 2);
    assert Pow10(2) == 100 by { assert Pow10(1) == 10; }
    PaddedReadsBack(f.second, 2);
    assert v[0..4] == u[0..4] && v[5..7] == u[5..7] && v[8..10] == u[8..10];
    assert v[11..13] == u[11..13] && v[14..16] == u[14..16];
    assert IsDigit(v[0]) by { assert v[0] == v[0..4][0]; }
    assert IsDigit(v[18]) by { assert v[18] == v[17..19][1]; }
    TrimKeepsTight(v);
  }

  /** Accepted are exactly the renderings of real dates from the year 100 on, with or without seconds,
      and with any white space around. */
  lemma AcceptedTextsExactly(value: JsString, t: int)
    ensures Gmt7LocalToUtc(value) == Some(t) <==>
            exists f: Fields ::
              && Real(f) && 100 <= f.year <= 9999 && InstantOf(f) == t
              && ((f.second == 0 && Trim(value) == Render(f)) ||
                  Trim(value) == Render(f) + [COLON] + Padded(f.second, 2))
  {
    hide Trim, InstantOf, Gmt7LocalToUtc, WellFormed, FieldsOf, Real, Render, Padded;
    var v := Trim(value);
    AcceptsExactlyRealDates(value);
    if WellFormed(v) {
      WellFormedIsRendered(v);
    }
    if f: Fields :|
      Real(f) && 100 <= f.year <= 9999 && InstantOf(f) == t &&
      ((f.second == 0 && v == Render(f)) || v == Render(f) + [COLON] + Padded(f.second, 2))
    {
      RenderedIsWellFormed(f);
    }
  }

  lemma WellFormedIsRendered(v: JsString)
    requires WellFormed(v)
    ensures var f := FieldsOf(v);
            && f.year <= 9999
            && ((f.second == 0 && v == Render(f)) || v == Render(f) + [COLON] + Padded(f.second, 2))
  {
    ReadRendersBack(v);
    FourDigitYear(v);
    hide Render, Padded;
    if |v| == 19 {
      ReadPadsBack(v[17..19]);
      assert v == v[..16] + [v[16]] + v[17..19];
    } else {
      assert v == v[..16];
    }
  }

  lemma RenderedIsWellFormed(f: Fields)
    requires Real(f) && f.year <= 9999
    ensures f.second == 0 ==> WellFormed(Render(f)) && FieldsOf(Render(f)) == f
    ensures var v := Render(f) + [COLON] + Padded(f.second, 2); WellFormed(v) && FieldsOf(v) == f
  {
    hide WellFormed, FieldsOf, Render, Padded;
    MonthsAreAtMost31(f.year, f.month - 1);
    RenderReadsBack(f);
    SecondsReadBack(f);
  }

  lemma InstantInRange(f: Fields)
    requires Real(f) && f.year <= 9999
    ensures InstantOf(f) + GMT7_OFFSET_MS <= MAX_TIME
  {
  }

  /** What an operator typed is what the form shows again, to the minute. */
  lemma TypedTimeComesBack(value: JsString)
    requires Gmt7LocalToUtc(value).Some?
    ensures UtcToGmt7LocalInput(Gmt7LocalToUtc(value)) == Ok(Trim(value)[..16])
  {
    hide Gmt7LocalToUtc, WellFormed, FieldsOf, Real, InstantOf, Iso16, Render, Trim;
    AcceptsExactlyRealDates(value);
    var v := Trim(value);
    var f := FieldsOf(v);
    FourDigitYear(v);
    InstantInRange(f);
    IsoOfInstant(f);
    ReadRendersBack(v);
  }

  /** ... and an instant the form is prefilled with is stored again as the minute it lies in,
      exactly when its GMT+7 year has four digits and is at least 100. */
  lemma PrefilledTimeComesBack(t: int)
    requires t + GMT7_OFFSET_MS <= MAX_TIME
    ensures var shown := UtcToGmt7LocalInput(Some(t));
            && shown.Ok?
            && (Gmt7LocalToUtc(shown.value) == Some(t - t % MS_PER_MINUTE) <==>
                100 <= YearFromTime(t + GMT7_OFFSET_MS) <= 9999)
  {
    hide YearFromTime, Gmt7LocalToUtc, WellFormed, FieldsOf, Real, InstantOf, Iso16, Render, Trim;
    var local := t + GMT7_OFFSET_MS;
    if 0 <= YearFromTime(local) <= 9999 {
      var f := FieldsShown(local);
      IsoIsRender(local, f);
      RenderReadsBack(f);
      AcceptsExactlyRealDates(Iso16(local));
    } else {
      SignedYearIsMalformed(local);
    }
  }

  lemma FieldsShown(local: int) returns (f: Fields)
    requires 0 <= YearFromTime(local) <= 9999
    ensures f.year == YearFromTime(local) && f.month == MonthFromTime(local) + 1 && f.day == DateFromTime(local)
    ensures f.hour == HourFromTime(local) && f.minute == MinFromTime(local) && f.second == 0
    ensures Real(f) && f.month <= 12 && f.day <= 31 && f.hour <= 23 && f.minute <= 59
    ensures InstantOf(f) + GMT7_OFFSET_MS == local - local % MS_PER_MINUTE
    ensures local % MS_PER_MINUTE == (local - GMT7_OFFSET_MS) % MS_PER_MINUTE
  {
    hide YearFromTime, MonthFromTime, DateFromTime, HourFromTime, MinFromTime, WallClock;
    TimeOfParts(local);
    f := Fields(YearFromTime(local), MonthFromTime(local) + 1, DateFromTime(local),
                HourFromTime(local), MinFromTime(local), 0);
  }

  /** What is shown for an instant: the GMT+7 date and time of its minute; a signed six-digit year
      instead, outside the years 0 to 9999; nothing for no date, and an error for the last seven hours of
      the range. */
  lemma ShownTextExactly(t: int)
    ensures UtcToGmt7LocalInput(None) == Ok([])
    ensures UtcToGmt7LocalInput(Some(t)).Err? <==> t > 8_640_000_000_000_000 - 25_200_000
    ensures UtcToGmt7LocalInput(Some(t)).Ok? ==>
              var s := UtcToGmt7LocalInput(Some(t)).value;
              var year := YearFromTime(t + 25_200_000);
              if 0 <= year <= 9999 then
                exists f: Fields :: Real(f) && f.second == 0 && s == Render(f) && InstantOf(f) == t - t % 60_000
              else
                |s| == 16 && s[..7] == [if year < 0 then 45 else 43] + Padded(if year < 0 then -year else year, 6)
  {
    var local := t + GMT7_OFFSET_MS;
    hide YearFromTime, MonthFromTime, DateFromTime, HourFromTime, MinFromTime, Real, InstantOf, Render, Padded;
    if 0 <= YearFromTime(local) <= 9999 {
      var f := FieldsShown(local);
      IsoIsRender(local, f);
    }
  }

  lemma SignedYearIsMalformed(t: int)
    requires !(0 <= YearFromTime(t) <= 9999)
    ensures Gmt7LocalToUtc(Iso16(t)).None?
  {
    var s := Iso16(t);
    var sign := s[0];
    assert !IsSpace(sign) && !IsDigit(sign);
    assert TrimStart(s) == s;
    TrimEndKeepsFirst(s);
    var v := Trim(s);
    assert v != [] && v[0] == sign;
    assert |v| >= 4 ==> v[0..4][0] == sign;
  }

  lemma {:induction false} TrimEndKeepsFirst(s: JsString)
    requires s != [] && !IsSpace(s[0])
    ensures TrimEnd(s) != [] && TrimEnd(s)[0] == s[0]
    decreases |s|
  {
    if IsSpace(s[|s| - 1]) {
      TrimEndKeepsFirst(s[..|s| - 1]);
    }
  }
}
