/**
 * The JavaScript Date object as the draw scheduler and the valuation use it.
 *
 * A Date holds a time value: whole milliseconds counted from 1970-01-01T00:00:00.000
 * (ECMA-262, section 21.4.1). Its getters and setters read and rebuild the time value
 * through the proleptic Gregorian calendar. The day-number to civil-date conversion
 * below is Howard Hinnant's era-based algorithm, with each step proved against the
 * calendar's own definition (leap years, month lengths).
 *
 * Local time is taken to be UTC: the time-zone offset and daylight saving are not modelled.
 */
module Calendar {
  const MsPerSecond: int := 1000
  const MsPerMinute: int := 60000
  const MsPerHour: int := 3600000
  const MsPerDay: int := 86400000

  /** A calendar date as the getters report it: month counts from 0 (getMonth), date from 1 (getDate). */
  datatype CivilDate = CivilDate(year: int, month: int, date: int)


  predicate IsLeapYear(y: int) { y % 4 == 0 && (y % 100 != 0 || y % 400 == 0) }

  function DaysInMonth(y: int, m: int): int
    requires 0 <= m < 12
  {
    if m == 1 then (if IsLeapYear(y) then 29 else 28)
    else if m == 3 || m == 5 || m == 8 || m == 10 then 30
    else 31
  }

  predicate ValidCivil(c: CivilDate) {
    0 <= c.month < 12 && 1 <= c.date <= DaysInMonth(c.year, c.month)
  }

  /** Days from the start of a 400-year era (1 March of year 0 of the era) to 1 March of its year yoe. */
  function DaysBeforeYear(yoe: int): int
    requires 0 <= yoe < 400
  {
    365 * yoe + yoe / 4 - yoe / 100
  }

  /** Length of the year of an era that runs from 1 March of year yoe to the end of February of yoe + 1. */
  function YearLength(yoe: int): int {
    if IsLeapYear(yoe + 1) then 366 else 365
  }

  function YearOfEra(doe: int): (yoe: int)
    requires 0 <= doe < 146097
    ensures 0 <= yoe < 400
    ensures DaysBeforeYear(yoe) <= doe < DaysBeforeYear(yoe) + YearLength(yoe)
  {
    var c := if doe / 36524 == 4 then 3 else doe / 36524;
    var r1 := doe - 36524 * c;
    var q := r1 / 1461;
    var r2 := r1 - 1461 * q;
    var y := if r2 / 365 == 4 then 3 else r2 / 365;
    assert 0 <= c < 4 && 0 <= q < 25 && 0 <= y < 4;
    var yoe := 100 * c + 4 * q + y;
    assert yoe / 4 == 25 * c + q;
    assert yoe / 100 == c;
    assert DaysBeforeYear(yoe) == 36524 * c + 1461 * q + 365 * y;
    assert IsLeapYear(yoe + 1) <== y == 3 && (q < 24 || c == 3);
    yoe
  }

  /** Months counted from March: 0 is March, 10 is January, 11 is February. */
  function MarchMonth(m: int): int
    requires 0 <= m < 12
  {
    if m >= 2 then m - 2 else m + 10
  }

  /** Day of the era-year on which March-based month mp begins. */
  function MonthStart(mp: int): int
    requires 0 <= mp < 12
  {
    (153 * mp + 2) / 5
  }

  function MonthOfYear(doy: int, leap: bool): (mp: int)
    requires 0 <= doy < (if leap then 366 else 365)
    ensures 0 <= mp < 12
    ensures MonthStart(mp) <= doy
    ensures mp < 11 ==> doy < MonthStart(mp + 1)
  {
    (5 * doy + 2) / 153
  }

  /** Length of March-based month mp in an era-year whose February has 29 days exactly when leap. */
  function MarchMonthLength(mp: int, leap: bool): int
    requires 0 <= mp < 12
  {
    if mp < 11 then MonthStart(mp + 1) - MonthStart(mp) else if leap then 29 else 28
  }

  lemma MarchMonthLengthIsDaysInMonth(y: int, m: int)
    requires 0 <= m < 12
    ensures MarchMonthLength(MarchMonth(m), IsLeapYear(y)) == DaysInMonth(y, m)
  {
  }

  lemma LeapYearPeriodic(k: int, y: int)
    ensures IsLeapYear(k * 400 + y) == IsLeapYear(y)
  {
    var x := k * 400 + y;
    DivMod4(x, 100 * k + y / 4, y % 4);
    DivMod100(x, 4 * k + y / 100, y % 100);
    DivMod400(x, k + y / 400, y % 400);
  }

  lemma DivMod4(x: int, q: int, r: int)
    requires x == 4 * q + r && 0 <= r < 4
    ensures x / 4 == q && x % 4 == r
  {
  }

  lemma DivMod100(x: int, q: int, r: int)
    requires x == 100 * q + r && 0 <= r < 100
    ensures x / 100 == q && x % 100 == r
  {
  }

  lemma DivMod400(x: int, q: int, r: int)
    requires x == 400 * q + r && 0 <= r < 400
    ensures x / 400 == q && x % 400 == r
  {
  }

  /** The civil date of day doe of era number era. */
  function CivilOfEraDay(era: int, doe: int): (c: CivilDate)
    requires 0 <= doe < 146097
    ensures ValidCivil(c)
  {
    var yoe := YearOfEra(doe);
    var doy := doe - DaysBeforeYear(yoe);
    var leap := IsLeapYear(yoe + 1);
    var mp := MonthOfYear(doy, leap);
    var m := if mp < 10 then mp + 2 else mp - 10;
    var y := era * 400 + yoe + (if mp >= 10 then 1 else 0);
    var d := doy - MonthStart(mp) + 1;
    assert 1 <= d <= MarchMonthLength(mp, leap);
    assert MarchMonth(m) == mp;
    assert mp == 11 ==> leap == IsLeapYear(y) by {
      LeapYearPeriodic(era, yoe + 1);
    }
    MarchMonthLengthIsDaysInMonth(y, m);
    CivilDate(y, m, d)
  }

  function CivilFromDays(z: int): (c: CivilDate)
    ensures ValidCivil(c)
  {
    CivilOfEraDay((z + 719468) / 146097, (z + 719468) % 146097)
  }

  /** The year whose March begins the era-year holding month m of year y. */
  function MarchYear(y: int, m: int): int {
    if m <= 1 then y - 1 else y
  }

  /** Number of the 400-year era holding month m of year y. */
  function EraOf(y: int, m: int): int {
    MarchYear(y, m) / 400
  }

  /** Day within its era of date d of month m of year y; d may lie outside the month. */
  function DayOfEra(y: int, m: int, d: int): int
    requires 0 <= m < 12
  {
    DaysBeforeYear(MarchYear(y, m) % 400) + MonthStart(MarchMonth(m)) + d - 1
  }

  function DaysFromCivil(y: int, m: int, d: int): int
    requires 0 <= m < 12
  {
    EraOf(y, m) * 146097 + DayOfEra(y, m, d) - 719468
  }

  lemma DaysBeforeYearStep(a: int)
    requires 0 <= a && a + 1 < 400
    ensures DaysBeforeYear(a + 1) == DaysBeforeYear(a) + YearLength(a)
  {
    if a % 4 == 3 { DivMod4(a + 1, a / 4 + 1, 0); } else { DivMod4(a + 1, a / 4, a % 4 + 1); }
    if a % 100 == 99 { DivMod100(a + 1, a / 100 + 1, 0); } else { DivMod100(a + 1, a / 100, a % 100 + 1); }
    DivMod400(a + 1, 0, a + 1);
  }

  lemma YearOfEraUnique(doe: int, a: int)
    requires 0 <= doe < 146097 && 0 <= a < 400
    requires DaysBeforeYear(a) <= doe < DaysBeforeYear(a) + YearLength(a)
    ensures YearOfEra(doe) == a
  {
    var b := YearOfEra(doe);
    if a + 1 < 400 { DaysBeforeYearStep(a); }
    if b + 1 < 400 { DaysBeforeYearStep(b); }
  }

  lemma MonthOfYearUnique(doy: int, leap: bool, mp: int)
    requires 0 <= mp < 12
    requires MonthStart(mp) <= doy < MonthStart(mp) + MarchMonthLength(mp, leap)
    ensures 0 <= doy < (if leap then 366 else 365)
    ensures MonthOfYear(doy, leap) == mp
  {
  }

  lemma DaysFromCivilRoundTrip(z: int)
    ensures var c := CivilFromDays(z); DaysFromCivil(c.year, c.month, c.date) == z
  {
    var era := (z + 719468) / 146097;
    var doe := (z + 719468) % 146097;
    var yoe := YearOfEra(doe);
    var doy := doe - DaysBeforeYear(yoe);
    var mp := MonthOfYear(doy, IsLeapYear(yoe + 1));
    var c := CivilFromDays(z);
    var y' := MarchYear(c.year, c.month);
    assert y' == era * 400 + yoe;
    assert EraOf(c.year, c.month) == era && y' % 400 == yoe;
    assert MarchMonth(c.month) == mp;
  }

  lemma CivilOfEraDayAt(era: int, doe: int, yoe: int, mp: int, date: int)
    requires 0 <= yoe < 400 && 0 <= mp < 12
    requires 1 <= date <= MarchMonthLength(mp, IsLeapYear(yoe + 1))
    requires doe == DaysBeforeYear(yoe) + MonthStart(mp) + date - 1
    ensures 0 <= doe < 146097
    ensures CivilOfEraDay(era, doe)
         == CivilDate(era * 400 + yoe + (if mp >= 10 then 1 else 0), if mp < 10 then mp + 2 else mp - 10, date)
  {
    MonthOfYearUnique(doe - DaysBeforeYear(yoe), IsLeapYear(yoe + 1), mp);
    if yoe + 1 < 400 { DaysBeforeYearStep(yoe); }
    YearOfEraUnique(doe, yoe);
    CivilOfEraDayParts(era, doe, yoe, mp, date);
  }

  lemma CivilOfEraDayParts(era: int, doe: int, yoe: int, mp: int, date: int)
    requires 0 <= doe < 146097 && YearOfEra(doe) == yoe
    requires MonthOfYear(doe - DaysBeforeYear(yoe), IsLeapYear(yoe + 1)) == mp
    requires doe == DaysBeforeYear(yoe) + MonthStart(mp) + date - 1
    ensures CivilOfEraDay(era, doe)
         == CivilDate(era * 400 + yoe + (if mp >= 10 then 1 else 0), if mp < 10 then mp + 2 else mp - 10, date)
  {
  }

  lemma MarchMonthInverse(m: int)
    requires 0 <= m < 12
    ensures (if MarchMonth(m) < 10 then MarchMonth(m) + 2 else MarchMonth(m) - 10) == m
    ensures MarchMonth(m) >= 10 <==> m <= 1
  {
  }

  lemma CivilFromDaysOfEra(z: int, era: int, doe: int)
    requires 0 <= doe < 146097 && z == era * 146097 + doe - 719468
    ensures CivilFromDays(z) == CivilOfEraDay(era, doe)
  {
    assert (z + 719468) / 146097 == era && (z + 719468) % 146097 == doe;
  }

  lemma CivilOfEraDayOfCivil(c: CivilDate)
    requires ValidCivil(c)
    ensures 0 <= DayOfEra(c.year, c.month, c.date) < 146097
    ensures CivilOfEraDay(EraOf(c.year, c.month), DayOfEra(c.year, c.month, c.date)) == c
  {
    var y' := MarchYear(c.year, c.month);
    var era, yoe, mp := y' / 400, y' % 400, MarchMonth(c.month);
    assert y' == era * 400 + yoe;
    assert IsLeapYear(yoe + 1) == IsLeapYear(y' + 1) by {
      LeapYearPeriodic(era, yoe + 1);
    }
    assert 1 <= c.date <= MarchMonthLength(mp, IsLeapYear(yoe + 1)) by {
      MarchMonthLengthIsDaysInMonth(c.year, c.month);
    }
    MarchMonthInverse(c.month);
    assert EraOf(c.year, c.month) == era;
    assert DayOfEra(c.year, c.month, c.date) == DaysBeforeYear(yoe) + MonthStart(mp) + c.date - 1;
    CivilOfEraDayAt(era, DayOfEra(c.year, c.month, c.date), yoe, mp, c.date);
    assert CivilDate(era * 400 + yoe + (if mp >= 10 then 1 else 0), if mp < 10 then mp + 2 else mp - 10, c.date) == c;
  }

  lemma CivilFromDaysRoundTrip(c: CivilDate)
    requires ValidCivil(c)
    ensures CivilFromDays(DaysFromCivil(c.year, c.month, c.date)) == c
  {
    CivilOfEraDayOfCivil(c);
    CivilFromDaysOfEra(DaysFromCivil(c.year, c.month, c.date), EraOf(c.year, c.month), DayOfEra(c.year, c.month, c.date));
  }

  /** The same month and date one year later is 365 or 366 days on. */
  lemma DaysFromCivilNextYear(y: int, m: int, d: int)
    requires 0 <= m < 12
    ensures 365 <= DaysFromCivil(y + 1, m, d) - DaysFromCivil(y, m, d) <= 366
  {
    var y' := MarchYear(y, m);
    var yoe := y' % 400;
    assert MarchYear(y + 1, m) == y' + 1;
    if yoe < 399 {
      DivMod400(y' + 1, y' / 400, yoe + 1);
      DaysBeforeYearStep(yoe);
    } else {
      DivMod400(y' + 1, y' / 400 + 1, 0);
    }
  }

  // ---------------------------------------------------------------------------------------------
  // Time values (ECMA-262, section 21.4.1)
  // ---------------------------------------------------------------------------------------------

  /** The day number of time value t: Day(t) = floor(t / msPerDay). */
  function Day(t: int): (d: int)
    ensures d * MsPerDay <= t < (d + 1) * MsPerDay
  {
    t / MsPerDay
  }

  /** Milliseconds since midnight. */
  function TimeWithinDay(t: int): (r: int)
    ensures 0 <= r < MsPerDay
  {
    t % MsPerDay
  }

  /** Day of the week, Sunday = 0; day 0 (1970-01-01) was a Thursday. */
  function WeekDay(t: int): (r: int)
    ensures 0 <= r < 7
  {
    (Day(t) + 4) % 7
  }

  function MakeTime(hour: int, min: int, sec: int, ms: int): int {
    hour * MsPerHour + min * MsPerMinute + sec * MsPerSecond + ms
  }

  function MakeDate(day: int, time: int): int {
    day * MsPerDay + time
  }

  /** The calendar date on which time value t falls. */
  function CivilOf(t: int): (c: CivilDate)
    ensures ValidCivil(c)
  {
    CivilFromDays(Day(t))
  }

  /** Date.prototype.getDate: day of the month, from 1. */
  function GetDate(t: int): (r: int)
    ensures 1 <= r <= 31
  {
    CivilOf(t).date
  }

  /** Date.prototype.getMonth: month of the year, from 0. */
  function GetMonth(t: int): (r: int)
    ensures 0 <= r < 12
  {
    CivilOf(t).month
  }

  /** Date.prototype.getFullYear. */
  function GetFullYear(t: int): int {
    CivilOf(t).year
  }

  /** Date.prototype.setHours(hour, min, sec, ms): same calendar day, new time of day. */
  function SetHours(t: int, hour: int, min: int, sec: int, ms: int): int {
    MakeDate(Day(t), MakeTime(hour, min, sec, ms))
  }

  /** Date.prototype.setDate(dt): same year and month, day of the month dt (which may overflow the month). */
  function SetDate(t: int, dt: int): int {
    MakeDate(DaysFromCivil(GetFullYear(t), GetMonth(t), dt), TimeWithinDay(t))
  }

  /** Date.prototype.setFullYear(y): same month, day of the month and time of day, year y. */
  function SetFullYear(t: int, y: int): int {
    MakeDate(DaysFromCivil(y, GetMonth(t), GetDate(t)), TimeWithinDay(t))
  }

  lemma MakeDateParts(day: int, time: int)
    requires 0 <= time < MsPerDay
    ensures Day(MakeDate(day, time)) == day && TimeWithinDay(MakeDate(day, time)) == time
  {
  }

  /** setHours with an in-range time keeps the day and sets exactly that time of day. */
  lemma SetHoursPinsTime(t: int, hour: int, min: int, sec: int, ms: int)
    requires 0 <= MakeTime(hour, min, sec, ms) < MsPerDay
    ensures Day(SetHours(t, hour, min, sec, ms)) == Day(t)
    ensures TimeWithinDay(SetHours(t, hour, min, sec, ms)) == MakeTime(hour, min, sec, ms)
  {
    MakeDateParts(Day(t), MakeTime(hour, min, sec, ms));
  }

  /** One day of milliseconds later is the next day number, at the same time of day. */
  lemma NextDayParts(t: int)
    ensures Day(t + MsPerDay) == Day(t) + 1 && TimeWithinDay(t + MsPerDay) == TimeWithinDay(t)
    ensures WeekDay(t + MsPerDay) == (WeekDay(t) + 1) % 7
  {
    MakeDateParts(Day(t) + 1, TimeWithinDay(t));
    assert t + MsPerDay == MakeDate(Day(t) + 1, TimeWithinDay(t));
  }

  /** d.setDate(d.getDate() + 1) moves to the same time of day on the next calendar day, across month and year ends. */
  lemma SetDateNextDay(t: int)
    ensures SetDate(t, GetDate(t) + 1) == t + MsPerDay
  {
    var c := CivilOf(t);
    var z := Day(t);
    DaysFromCivilRoundTrip(z);
    assert DaysFromCivil(c.year, c.month, c.date) == z;
    assert DaysFromCivil(c.year, c.month, c.date + 1) == z + 1;
    calc {
      SetDate(t, GetDate(t) + 1);
      MakeDate(DaysFromCivil(c.year, c.month, c.date + 1), TimeWithinDay(t));
      MakeDate(z + 1, TimeWithinDay(t));
      t + MsPerDay;
    }
  }

  /** setFullYear(year - 1) and setFullYear(year + 1) lie 365 or 366 days before and after; 29 February rolls over to 1 March. */
  lemma {:induction false} SetFullYearShift(t: int)
    ensures 365 * MsPerDay <= t - SetFullYear(t, GetFullYear(t) - 1) <= 366 * MsPerDay
    ensures 365 * MsPerDay <= SetFullYear(t, GetFullYear(t) + 1) - t <= 366 * MsPerDay
  {
    DaysFromCivilRoundTrip(Day(t));
    YearSpan(t, GetFullYear(t), GetMonth(t), GetDate(t));
  }

  /** Moving the year of day (y, m, d), the day of t, by one either way shifts t by 365 or 366 days. */
  lemma YearSpan(t: int, y: int, m: int, d: int)
    requires 0 <= m < 12 && DaysFromCivil(y, m, d) == Day(t)
    ensures 365 * MsPerDay <= t - MakeDate(DaysFromCivil(y - 1, m, d), TimeWithinDay(t)) <= 366 * MsPerDay
    ensures 365 * MsPerDay <= MakeDate(DaysFromCivil(y + 1, m, d), TimeWithinDay(t)) - t <= 366 * MsPerDay
  {
    DaysFromCivilNextYear(y - 1, m, d);
    DaysFromCivilNextYear(y, m, d);
    DayAndTime(t);
    MakeDateSpan(DaysFromCivil(y - 1, m, d), Day(t), TimeWithinDay(t));
    MakeDateSpan(Day(t), DaysFromCivil(y + 1, m, d), TimeWithinDay(t));
  }

  lemma DayAndTime(t: int)
    ensures t == MakeDate(Day(t), TimeWithinDay(t))
  {
  }

  lemma MakeDateSpan(a: int, b: int, time: int)
    requires 365 <= b - a <= 366
    ensures 365 * MsPerDay <= MakeDate(b, time) - MakeDate(a, time) <= 366 * MsPerDay
  {
  }

  /** The statement d.setDate(d.getDate() + 1) on a Date holding t: the new time value is one day later. */
  method AdvanceOneDay(t: int) returns (r: int)
    ensures r == t + MsPerDay
    ensures Day(r) == Day(t) + 1 && TimeWithinDay(r) == TimeWithinDay(t)
    ensures WeekDay(r) == (WeekDay(t) + 1) % 7
  {
    r := SetDate(t, GetDate(t) + 1);
    SetDateNextDay(t);
    NextDayParts(t);
  }
}
