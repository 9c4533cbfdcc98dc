/** UTC day arithmetic as Date computes it (sections 21.4.1 and 21.4.3.4 of ECMA-262), over unbounded integers.
    Months are numbered from 0, as the Date methods number them. */
module Calendar {

  const MS_PER_DAY := 86_400_000

  // ---------------------------------------------------------------- the reference calendar

  predicate IsLeap(y: int) {
    y % 4 == 0 && (y % 100 != 0 || y % 400 == 0)
  }

  function DaysInMonth(y: int, m: int): (n: int)
    requires 0 <= m < 12
    ensures 28 <= n <= 31
  {
    if m == 1 then (if IsLeap(y) then 29 else 28)
    else if m == 3 || m == 5 || m == 8 || m == 10 then 30
    else 31
  }

  /** A day of the proleptic Gregorian calendar. */
  predicate ValidCivil(y: int, m: int, d: int) {
    0 <= m < 12 && 1 <= d <= DaysInMonth(y, m)
  }

  // ---------------------------------------------------------------- Date's arithmetic

  function DayFromYear(y: int): int {
    365 * (y - 1970) + (y - 1969) / 4 - (y - 1901) / 100 + (y - 1601) / 400
  }

  function LeapShift(y: int): int {
    if IsLeap(y) then 1 else 0
  }

  /** Days of the year before the first of month m; month 12 is the end of the year. */
  function MonthStart(y: int, m: int): int
    requires 0 <= m <= 12
  {
    if m == 0 then 0 else if m == 1 then 31 else if m == 2 then 59 + LeapShift(y)
    else if m == 3 then 90 + LeapShift(y) else if m == 4 then 120 + LeapShift(y) else if m == 5 then 151 + LeapShift(y)
    else if m == 6 then 181 + LeapShift(y) else if m == 7 then 212 + LeapShift(y) else if m == 8 then 243 + LeapShift(y)
    else if m == 9 then 273 + LeapShift(y) else if m == 10 then 304 + LeapShift(y) else if m == 11 then 334 + LeapShift(y)
    else 365 + LeapShift(y)
  }

  function MakeDay(y: int, m: int, d: int): int {
    DayFromYear(y + m / 12) + MonthStart(y + m / 12, m % 12) + d - 1
  }

  /** The day that Date.UTC(y, m, d) starts, which reads the years 0 to 99 as 1900 to 1999. */
  function UtcDay(y: int, m: int, d: int): int {
    MakeDay(if 0 <= y <= 99 then 1900 + y else y, m, d)
  }

  /** The time value of Date.UTC(y, m, d). */
  function DateUTC(y: int, m: int, d: int): int {
    UtcDay(y, m, d) * MS_PER_DAY
  }

  function Day(t: int): int {
    t / MS_PER_DAY
  }

  /** Climbs from a year that starts no later than day n to the last such year. */
  function Climb(n: int, y: int): (r: int)
    requires DayFromYear(y) <= n
    ensures DayFromYear(r) <= n < DayFromYear(r + 1)
    decreases n - DayFromYear(y)
  {
    YearStep(y);
    if DayFromYear(y + 1) <= n then Climb(n, y + 1) else y
  }

  /** The largest year whose first day is no later than day n. */
  function YearOfDay(n: int): (y: int)
    ensures DayFromYear(y) <= n < DayFromYear(y + 1)
  {
    Climb(n, 1970 + (if n >= 0 then n / 366 else n / 365))
  }

  /** The last month that starts no later than day `within` of the year. */
  function MonthWithin(y: int, within: int): (m: int)
    requires 0 <= within < 365 + LeapShift(y)
    ensures 0 <= m < 12 && MonthStart(y, m) <= within < MonthStart(y, m + 1)
  {
    if within < 31 then 0 else if within < 59 + LeapShift(y) then 1 else if within < 90 + LeapShift(y) then 2
    else if within < 120 + LeapShift(y) then 3 else if within < 151 + LeapShift(y) then 4
    else if within < 181 + LeapShift(y) then 5 else if within < 212 + LeapShift(y) then 6
    else if within < 243 + LeapShift(y) then 7 else if within < 273 + LeapShift(y) then 8
    else if within < 304 + LeapShift(y) then 9 else if within < 334 + LeapShift(y) then 10 else 11
  }

  datatype Civil = Civil(year: int, month: int, day: int)

  /** getUTCFullYear, getUTCMonth and getUTCDate of day n. */
  function CivilOfDay(n: int): Civil {
    var y := YearOfDay(n);
    YearStep(y);
    var within := n - DayFromYear(y);
    var m := MonthWithin(y, within);
    Civil(y, m, within - MonthStart(y, m) + 1)
  }

  // ---------------------------------------------------------------- round trips

  lemma YearStep(y: int)
    ensures DayFromYear(y + 1) == DayFromYear(y) + 365 + LeapShift(y)
  {
    FourthYear(y);
    HundredthYear(y);
    FourHundredthYear(y);
    CenturiesNest(y);
  }

  lemma FourthYear(y: int)
    ensures (y - 1968) / 4 == (y - 1969) / 4 + (if y % 4 == 0 then 1 else 0)
  {
  }

  lemma HundredthYear(y: int)
    ensures (y - 1900) / 100 == (y - 1901) / 100 + (if y % 100 == 0 then 1 else 0)
  {
  }

  lemma FourHundredthYear(y: int)
    ensures (y - 1600) / 400 == (y - 1601) / 400 + (if y % 400 == 0 then 1 else 0)
  {
  }

  lemma CenturiesNest(y: int)
    ensures (y % 400 == 0 ==> y % 100 == 0) && (y % 100 == 0 ==> y % 4 == 0)
  {
  }

  lemma MakeDayInYear(y: int, m: int, d: int)
    requires 0 <= m < 12
    ensures MakeDay(y, m, d) == DayFromYear(y) + MonthStart(y, m) + d - 1
  {
  }

  lemma {:induction false} YearsApart(y: int, z: int)
    requires y <= z
    ensures DayFromYear(z) >= DayFromYear(y) + 365 * (z - y)
    decreases z - y
  {
    if y < z {
      YearsApart(y, z - 1);
      YearStep(z - 1);
    }
  }

  lemma YearIsUnique(n: int, y: int)
    requires DayFromYear(y) <= n < DayFromYear(y + 1)
    ensures YearOfDay(n) == y
  {
    hide DayFromYear;
    var z := YearOfDay(n);
    if z < y { YearsApart(z + 1, y); }
    if y < z { YearsApart(y + 1, z); }
  }

  lemma MonthLengths(y: int, m: int)
    requires 0 <= m < 12
    ensures MonthStart(y, m + 1) == MonthStart(y, m) + DaysInMonth(y, m)
    ensures 0 <= MonthStart(y, m) && MonthStart(y, m + 1) <= 365 + LeapShift(y)
  {
  }

  lemma {:induction false} MonthsApart(y: int, m: int, k: int)
    requires 0 <= m <= k <= 12
    ensures MonthStart(y, m) <= MonthStart(y, k)
    decreases k - m
  {
  }

  /** Every day number is the number of its own civil date, which is a valid one. */
  lemma DayRoundTrip(n: int)
    ensures var c := CivilOfDay(n); ValidCivil(c.year, c.month, c.day) && MakeDay(c.year, c.month, c.day) == n
  {
    var c := CivilOfDay(n);
    YearStep(c.year);
    MonthLengths(c.year, c.month);
    MakeDayInYear(c.year, c.month, c.day);
  }

  /** A civil date survives the trip through its day number exactly when it exists. */
  lemma CivilRoundTrip(y: int, m: int, d: int)
    requires 0 <= m < 12
    ensures CivilOfDay(MakeDay(y, m, d)) == Civil(y, m, d) <==> ValidCivil(y, m, d)
  {
    hide CivilOfDay, MakeDay, DaysInMonth;
    DayRoundTrip(MakeDay(y, m, d));
    if ValidCivil(y, m, d) {
      CivilOfValid(y, m, d);
    }
  }

  lemma CivilOfValid(y: int, m: int, d: int)
    requires ValidCivil(y, m, d)
    ensures CivilOfDay(MakeDay(y, m, d)) == Civil(y, m, d)
  {
    hide MakeDay, MonthStart, DayFromYear, LeapShift, YearOfDay, MonthWithin, DaysInMonth;
    var n := MakeDay(y, m, d);
    MakeDayInYear(y, m, d);
    MonthLengths(y, m);
    YearStep(y);
    YearIsUnique(n, y);
    MonthIsUnique(y, n - DayFromYear(y), m);
  }

  lemma MonthIsUnique(y: int, within: int, m: int)
    requires 0 <= within < 365 + LeapShift(y) && 0 <= m < 12
    requires MonthStart(y, m) <= within < MonthStart(y, m + 1)
    ensures MonthWithin(y, within) == m
  {
  }

  predicate Before(a: Civil, b: Civil) {
    a.year < b.year || (a.year == b.year && (a.month < b.month || (a.month == b.month && a.day < b.day)))
  }

  /** Day numbers order the valid dates as the calendar does. */
  lemma DayOrder(a: Civil, b: Civil)
    requires ValidCivil(a.year, a.month, a.day) && ValidCivil(b.year, b.month, b.day)
    ensures MakeDay(a.year, a.month, a.day) < MakeDay(b.year, b.month, b.day) <==> Before(a, b)
  {
    if Before(a, b) {
      EarlierIsSmaller(a, b);
    } else if Before(b, a) {
      EarlierIsSmaller(b, a);
    }
  }

  lemma DayWithinYear(y: int, m: int, d: int)
    requires 0 <= m < 12 && d >= 1
    ensures DayFromYear(y) <= MakeDay(y, m, d)
    ensures d <= DaysInMonth(y, m) ==> MakeDay(y, m, d) < DayFromYear(y + 1)
  {
    MakeDayInYear(y, m, d);
    MonthLengths(y, m);
    YearStep(y);
  }

  lemma LaterYearIsLater(y: int, m: int, d: int, z: int, k: int, e: int)
    requires ValidCivil(y, m, d) && y < z && 0 <= k < 12 && e >= 1
    ensures MakeDay(y, m, d) < MakeDay(z, k, e)
  {
    DayWithinYear(y, m, d);
    DayWithinYear(z, k, e);
    YearsApart(y + 1, z);
  }

  lemma EarlierIsSmaller(a: Civil, b: Civil)
    requires ValidCivil(a.year, a.month, a.day) && ValidCivil(b.year, b.month, b.day) && Before(a, b)
    ensures MakeDay(a.year, a.month, a.day) < MakeDay(b.year, b.month, b.day)
  {
    if a.year < b.year {
      LaterYearIsLater(a.year, a.month, a.day, b.year, b.month, b.day);
    } else {
      MakeDayInYear(a.year, a.month, a.day);
      MakeDayInYear(b.year, b.month, b.day);
      if a.month < b.month {
        MonthLengths(a.year, a.month);
        MonthsApart(a.year, a.month + 1, b.month);
      }
    }
  }

  // ---------------------------------------------------------------- the epoch and the days after it

  /** The day after an existing one. */
  function NextCivil(c: Civil): Civil
    requires ValidCivil(c.year, c.month, c.day)
  {
    if c.day < DaysInMonth(c.year, c.month) then Civil(c.year, c.month, c.day + 1)
    else if c.month < 11 then Civil(c.year, c.month + 1, 1)
    else Civil(c.year + 1, 0, 1)
  }

  lemma EpochNumber()
    ensures MakeDay(1970, 0, 1) == 0 && MakeDay(1970, 0, 2) == 1
  {
  }

  /** Time 0 is the midnight that starts 1 January 1970, and a day is 86,400,000 milliseconds. */
  lemma Epoch()
    ensures DateUTC(1970, 0, 1) == 0 && CivilOfDay(0) == Civil(1970, 0, 1)
    ensures DateUTC(1970, 0, 2) == 86_400_000
  {
    hide CivilOfDay, MakeDay;
    EpochNumber();
    CivilRoundTrip(1970, 0, 1);
  }

  lemma YearEnds(y: int)
    ensures MonthStart(y, 0) == 0 && MonthStart(y, 12) == 365 + LeapShift(y)
  {
  }

  /** Consecutive dates have consecutive day numbers. */
  lemma NextDayIsNext(c: Civil)
    requires ValidCivil(c.year, c.month, c.day)
    ensures var next := NextCivil(c);
      && ValidCivil(next.year, next.month, next.day)
      && MakeDay(next.year, next.month, next.day) == MakeDay(c.year, c.month, c.day) + 1
  {
    hide MakeDay, MonthStart, DayFromYear, LeapShift, DaysInMonth;
    MakeDayInYear(c.year, c.month, c.day);
    MonthLengths(c.year, c.month);
    YearStep(c.year);
    YearEnds(c.year);
    YearEnds(c.year + 1);
    var next := NextCivil(c);
    MakeDayInYear(next.year, next.month, next.day);
  }

  /** Counting n days on from 1 January 1970, or back to it. */
  function CivilAfter(n: nat): (c: Civil)
    ensures ValidCivil(c.year, c.month, c.day)
  {
    if n == 0 then Civil(1970, 0, 1)
    else
      NextDayIsNext(CivilAfter(n - 1));
      NextCivil(CivilAfter(n - 1))
  }

  /** The day number is the count of days from 1 January 1970, and the civil date of a time since then is the one
      reached by counting the whole days it contains. */
  lemma {:induction false} DayNumbersCountFromEpoch(n: nat)
    ensures var c := CivilAfter(n); MakeDay(c.year, c.month, c.day) == n && CivilOfDay(n) == c
  {
    hide CivilOfDay, MakeDay, NextCivil, DaysInMonth;
    if n == 0 {
      Epoch();
      EpochNumber();
    } else {
      DayNumbersCountFromEpoch(n - 1);
      NextDayIsNext(CivilAfter(n - 1));
      var c := CivilAfter(n);
      CivilRoundTrip(c.year, c.month, c.day);
    }
  }

  /** The day of a time is the whole days in it; midnight of a day is that many milliseconds. */
  lemma DayContains(t: int)
    ensures Day(t) * 86_400_000 <= t < (Day(t) + 1) * 86_400_000
  {
  }

  // ---------------------------------------------------------------- calendar day distance

  /** startOfUtcDay */
  function StartOfUtcDay(t: int): int {
    var c := CivilOfDay(Day(t));
    DateUTC(c.year, c.month, c.day)
  }

  /** Math.round(a / 86_400_000) for a natural number a. */
  function RoundToDays(a: nat): int {
    (2 * a + MS_PER_DAY) / (2 * MS_PER_DAY)
  }

  function Abs(x: int): nat {
    if x < 0 then -x else x
  }

  /** utcCalendarDayDistance */
  function UtcCalendarDayDistance(left: int, right: int): int {
    RoundToDays(Abs(StartOfUtcDay(left) - StartOfUtcDay(right)))
  }

  predicate TwoDigitYear(t: int) {
    0 <= CivilOfDay(Day(t)).year <= 99
  }

  /** The day whose midnight startOfUtcDay(t) is. */
  function StartDay(t: int): int {
    var c := CivilOfDay(Day(t));
    UtcDay(c.year, c.month, c.day)
  }

  /** startOfUtcDay gives midnight of the time's own day exactly outside the years 0 to 99. */
  lemma StartOfUtcDayExact(t: int)
    ensures StartOfUtcDay(t) == StartDay(t) * MS_PER_DAY
    ensures StartDay(t) == Day(t) <==> !TwoDigitYear(t)
    ensures TwoDigitYear(t) ==> var c := CivilOfDay(Day(t)); StartDay(t) == MakeDay(1900 + c.year, c.month, c.day)
  {
    hide MakeDay, CivilOfDay, DaysInMonth, Day;
    DayRoundTrip(Day(t));
    var y, m, d := CivilOfDay(Day(t)).year, CivilOfDay(Day(t)).month, CivilOfDay(Day(t)).day;
    if TwoDigitYear(t) {
      LaterYearIsLater(y, m, d, y + 1900, m, d);
    }
  }

  lemma SinceEpoch(t: nat)
    ensures !TwoDigitYear(t)
  {
    var y := YearOfDay(Day(t));
    if y < 1970 {
      YearsApart(y + 1, 1970);
    }
  }

  lemma RoundExactDays(k: nat)
    ensures RoundToDays(k * MS_PER_DAY) == k
  {
  }

  /** The calendar day distance of two times is exactly the distance of their start days. */
  lemma DistanceCountsDays(left: int, right: int)
    ensures UtcCalendarDayDistance(left, right) == Abs(StartDay(left) - StartDay(right))
  {
    StartOfUtcDayExact(left);
    StartOfUtcDayExact(right);
    var k := Abs(StartDay(left) - StartDay(right));
    assert Abs(StartOfUtcDay(left) - StartOfUtcDay(right)) == k * MS_PER_DAY;
    RoundExactDays(k);
  }

  /** From 1970 on, the distance of two times is the difference of the days that contain them. */
  lemma DistanceSinceEpoch(left: nat, right: nat)
    ensures UtcCalendarDayDistance(left, right) == Abs(left / 86_400_000 - right / 86_400_000)
  {
    hide CivilOfDay, DateUTC, UtcDay;
    SinceEpoch(left);
    SinceEpoch(right);
    StartOfUtcDayExact(left);
    StartOfUtcDayExact(right);
    DistanceCountsDays(left, right);
  }
}
