/** The proleptic Gregorian calendar, defined as slowly as possible: years are
    counted one at a time from 1970 and months one at a time from January.
    Nothing here is an algorithm of the program; it is what the program must agree with. */
module Calendar {
  import opened CInt

  const SECONDS_PER_DAY: int := 86400
  const DAYS_PER_CYCLE: int := 146097
  const SECONDS_PER_CYCLE: int := DAYS_PER_CYCLE * SECONDS_PER_DAY

  predicate IsLeap(year: int) {
    year % 400 == 0 || (year % 4 == 0 && year % 100 != 0)
  }

  function YearLength(year: int): int {
    if IsLeap(year) then 366 else 365
  }

  // Days from 1970-01-01 to January 1 of the year.
  function Jan1(year: int): int
    decreases if year >= 1970 then year - 1970 else 1970 - year
  {
    if year == 1970 then 0
    else if year > 1970 then Jan1(year - 1) + YearLength(year - 1)
    else Jan1(year + 1) - YearLength(year)
  }

  // Seconds from 1970-01-01 to the start of the year.
  function YearStart(year: int): int {
    Jan1(year) * SECONDS_PER_DAY
  }

  function MonthLength(leap: bool, mon: int): int
    requires 0 <= mon <= 11
  {
    if mon == 1 then (if leap then 29 else 28)
    else if mon == 3 || mon == 5 || mon == 8 || mon == 10 then 30
    else 31
  }

  // Days from January 1 to the first of the month.
  function MonthStart(leap: bool, mon: int): (r: int)
    requires 0 <= mon <= 11
    ensures r >= 0
  {
    if mon == 0 then 0 else MonthStart(leap, mon - 1) + MonthLength(leap, mon - 1)
  }

  // A broken-down time. Months count from 0 and days of the month from 1; Sunday is weekday 0.
  datatype Civil = Civil(year: int, mon: int, mday: int, hour: int, min: int, sec: int, wday: int, yday: int)

  // Walks from day 'day' of 'year' to a day inside its own year.
  function WalkYears(year: int, day: int): (int, int)
    decreases if day < 0 then 1 else 0, if day < 0 then -day else day
  {
    if day < 0 then WalkYears(year - 1, day + YearLength(year - 1))
    else if day >= YearLength(year) then WalkYears(year + 1, day - YearLength(year))
    else (year, day)
  }

  // Walks from day 'day' of month 'mon' to a day inside its own month.
  function WalkMonths(leap: bool, mon: int, day: int): (int, int)
    requires 0 <= mon <= 11
    decreases 11 - mon
  {
    if day < MonthLength(leap, mon) || mon == 11 then (mon, day)
    else WalkMonths(leap, mon + 1, day - MonthLength(leap, mon))
  }

  // The broken-down UTC time of t seconds after 1970-01-01, a Thursday.
  function CivilOf(t: int): Civil {
    var day, second := t / SECONDS_PER_DAY, t % SECONDS_PER_DAY;
    var (year, yday) := WalkYears(1970, day);
    var (mon, inMonth) := WalkMonths(IsLeap(year), 0, yday);
    Civil(year, mon, inMonth + 1, second / 3600, second / 60 % 60, second % 60, (day + 4) % 7, yday)
  }

  // The day a civil date names, counted from 1970-01-01.
  function DayOf(year: int, mon: int, mday: int): int
    requires 0 <= mon <= 11
  {
    Jan1(year) + MonthStart(IsLeap(year), mon) + mday - 1
  }

  function SecondsOf(c: Civil): int
    requires 0 <= c.mon <= 11
  {
    DayOf(c.year, c.mon, c.mday) * SECONDS_PER_DAY + c.hour * 3600 + c.min * 60 + c.sec
  }

  // A date that exists, at a time that exists.
  predicate ValidDate(c: Civil) {
    && 0 <= c.mon <= 11
    && 1 <= c.mday <= MonthLength(IsLeap(c.year), c.mon)
    && 0 <= c.hour <= 23 && 0 <= c.min <= 59 && 0 <= c.sec <= 59
  }

  // The redundant fields say what the others imply.
  predicate Consistent(c: Civil)
    requires 0 <= c.mon <= 11
  {
    && c.yday == MonthStart(IsLeap(c.year), c.mon) + c.mday - 1
    && c.wday == (DayOf(c.year, c.mon, c.mday) + 4) % 7
  }

  // ---- What the definitions imply

  lemma YearIsItsMonths(leap: bool)
    ensures MonthStart(leap, 11) + 31 == if leap then 366 else 365
  {
    assert MonthStart(leap, 1) == 31;
    assert MonthStart(leap, 2) == if leap then 60 else 59;
    assert MonthStart(leap, 4) == MonthStart(leap, 2) + 61;
    assert MonthStart(leap, 6) == MonthStart(leap, 4) + 61;
    assert MonthStart(leap, 8) == MonthStart(leap, 6) + 62;
    assert MonthStart(leap, 10) == MonthStart(leap, 8) + 61;
  }

  lemma {:induction false} WalkYearsKeeps(year: int, day: int)
    ensures var r := WalkYears(year, day);
      Jan1(r.0) + r.1 == Jan1(year) + day && 0 <= r.1 < YearLength(r.0)
    decreases if day < 0 then 1 else 0, if day < 0 then -day else day
  {
    if day < 0 {
      WalkYearsKeeps(year - 1, day + YearLength(year - 1));
      NextJan1(year - 1);
    } else if day >= YearLength(year) {
      WalkYearsKeeps(year + 1, day - YearLength(year));
      NextJan1(year);
    }
  }

  lemma YearEndsDecember(leap: bool, mon: int)
    requires mon == 11
    ensures MonthStart(leap, mon) + MonthLength(leap, mon) == if leap then 366 else 365
  {
    YearIsItsMonths(leap);
  }

  lemma NextMonthStart(leap: bool, mon: int)
    requires 0 <= mon < 11
    ensures MonthStart(leap, mon + 1) == MonthStart(leap, mon) + MonthLength(leap, mon)
  {
  }

  lemma {:induction false} WalkMonthsKeeps(leap: bool, mon: int, day: int)
    requires 0 <= mon <= 11
    requires 0 <= day < (if leap then 366 else 365) - MonthStart(leap, mon)
    ensures var r := WalkMonths(leap, mon, day);
      && 0 <= r.0 <= 11 && 0 <= r.1 < MonthLength(leap, r.0)
      && MonthStart(leap, r.0) + r.1 == MonthStart(leap, mon) + day
    decreases 11 - mon
  {
    hide MonthLength, MonthStart;
    if mon == 11 {
      YearEndsDecember(leap, mon);
    } else if day >= MonthLength(leap, mon) {
      NextMonthStart(leap, mon);
      WalkMonthsKeeps(leap, mon + 1, day - MonthLength(leap, mon));
    }
  }

  lemma MonthStartGrows(leap: bool, m: int, n: int)
    requires 0 <= m < n <= 11
    ensures MonthStart(leap, m) + MonthLength(leap, m) <= MonthStart(leap, n)
    decreases n
  {
    if m < n - 1 { MonthStartGrows(leap, m, n - 1); }
  }

  // A day of the year lies in only one month.
  lemma MonthIsUnique(leap: bool, m: int, i: int, n: int, j: int)
    requires 0 <= m <= 11 && 0 <= i < MonthLength(leap, m)
    requires 0 <= n <= 11 && 0 <= j < MonthLength(leap, n)
    requires MonthStart(leap, m) + i == MonthStart(leap, n) + j
    ensures m == n && i == j
  {
    if m < n { MonthStartGrows(leap, m, n); }
    if n < m { MonthStartGrows(leap, n, m); }
  }

  lemma NextJan1(y: int)
    ensures Jan1(y + 1) == Jan1(y) + YearLength(y)
  {
  }

  lemma {:induction false} Jan1Grows(y: int, z: int)
    requires y < z
    ensures Jan1(y) + YearLength(y) <= Jan1(z)
    decreases z - y
  {
    if y < z - 1 { Jan1Grows(y, z - 1); }
  }

  lemma Jan1AtMost(y: int, z: int)
    requires y <= z
    ensures Jan1(y) <= Jan1(z)
  {
    if y < z { Jan1Grows(y, z); }
  }

  // A day lies in only one year.
  lemma YearIsUnique(y: int, i: int, z: int, j: int)
    requires 0 <= i < YearLength(y) && 0 <= j < YearLength(z)
    requires Jan1(y) + i == Jan1(z) + j
    ensures y == z && i == j
  {
    if y < z { Jan1Grows(y, z); }
    if z < y { Jan1Grows(z, y); }
  }

  // Leap years from year 1 through year y.
  function LeapsThrough(y: int): int {
    y / 4 - y / 100 + y / 400
  }

  lemma DivisionSteps(y: int, n: int)
    requires n > 1
    ensures y / n == (y - 1) / n + if y % n == 0 then 1 else 0
  {
    if y % n == 0 {
      DivisionIsUnique(y - 1, n, y / n - 1, n - 1);
    } else {
      DivisionIsUnique(y - 1, n, y / n, y % n - 1);
    }
  }

  lemma LeapsStep(y: int)
    ensures LeapsThrough(y) == LeapsThrough(y - 1) + if IsLeap(y) then 1 else 0
  {
    DivisionSteps(y, 4);
    DivisionSteps(y, 100);
    DivisionSteps(y, 400);
    MultiplesNest(y);
  }

  lemma MultiplesNest(y: int)
    ensures y % 400 == 0 ==> y % 100 == 0
    ensures y % 100 == 0 ==> y % 4 == 0
  {
    if y % 400 == 0 { DivisionIsUnique(y, 100, 4 * (y / 400), 0); }
    if y % 100 == 0 { DivisionIsUnique(y, 4, 25 * (y / 100), 0); }
  }

  // Counting one year at a time comes to the usual closed form.
  lemma {:induction false} Jan1Closed(y: int)
    ensures Jan1(y) == 365 * (y - 1970) + LeapsThrough(y - 1) - LeapsThrough(1969)
    decreases if y >= 1970 then y - 1970 else 1970 - y
  {
    if y > 1970 {
      Jan1Closed(y - 1);
      LeapsStep(y - 1);
    } else if y < 1970 {
      Jan1Closed(y + 1);
      LeapsStep(y);
    }
  }

  lemma LeapsCycle(y: int, k: int)
    ensures LeapsThrough(y + 400 * k) == LeapsThrough(y) + 97 * k
    ensures IsLeap(y + 400 * k) == IsLeap(y)
  {
    DivisionIsUnique(y + 400 * k, 4, y / 4 + 100 * k, y % 4);
    DivisionIsUnique(y + 400 * k, 100, y / 100 + 4 * k, y % 100);
    DivisionIsUnique(y + 400 * k, 400, y / 400 + k, y % 400);
  }

  // Four hundred years repeat exactly.
  lemma Jan1Cycle(y: int, k: int)
    ensures Jan1(y + 400 * k) == Jan1(y) + DAYS_PER_CYCLE * k
    ensures IsLeap(y + 400 * k) == IsLeap(y)
  {
    Jan1Closed(y);
    Jan1Closed(y + 400 * k);
    LeapsCycle(y - 1, k);
    LeapsCycle(y, k);
  }

  // The walk meets any description of the same day.
  lemma CivilOfDay(t: int, year: int, yday: int)
    requires 0 <= yday < YearLength(year)
    requires Jan1(year) + yday == t / SECONDS_PER_DAY
    ensures CivilOf(t).year == year && CivilOf(t).yday == yday
  {
    var w := WalkYears(1970, t / SECONDS_PER_DAY);
    WalkYearsKeeps(1970, t / SECONDS_PER_DAY);
    YearIsUnique(year, yday, w.0, w.1);
  }

  // What the broken-down time of t satisfies.
  lemma CivilOfIsValid(t: int)
    ensures ValidDate(CivilOf(t)) && Consistent(CivilOf(t))
    ensures DayOf(CivilOf(t).year, CivilOf(t).mon, CivilOf(t).mday) == t / SECONDS_PER_DAY
    ensures 0 <= CivilOf(t).yday < YearLength(CivilOf(t).year)
  {
    var w := WalkYears(1970, t / SECONDS_PER_DAY);
    WalkYearsKeeps(1970, t / SECONDS_PER_DAY);
    WalkMonthsKeeps(IsLeap(w.0), 0, w.1);
  }

  lemma PositionInYear(t: int)
    ensures var c := CivilOf(t);
      && t - YearStart(c.year) == c.yday * SECONDS_PER_DAY + t % SECONDS_PER_DAY
      && 0 <= c.yday < YearLength(c.year)
  {
    WalkYearsKeeps(1970, t / SECONDS_PER_DAY);
  }

  // A time lies in a year up to some year exactly when it is before the next one's start.
  lemma YearAtMost(t: int, year: int)
    ensures CivilOf(t).year <= year <==> t < YearStart(year + 1)
  {
    var y := CivilOf(t).year;
    PositionInYear(t);
    NextJan1(y);
    hide CivilOf, Jan1, YearLength;
    if y <= year { Jan1AtMost(y + 1, year + 1); } else { Jan1AtMost(year + 1, y); }
  }

  // Breaking a time down loses nothing.
  lemma CivilRoundTrip(t: int)
    ensures ValidDate(CivilOf(t)) && SecondsOf(CivilOf(t)) == t
  {
    CivilOfIsValid(t);
    var s := t % SECONDS_PER_DAY;
    assert s == s / 3600 * 3600 + s / 60 % 60 * 60 + s % 60;
  }

  // A day of a month is a day of its year.
  lemma DayOfYearInYear(leap: bool, mon: int, mday: int)
    requires 0 <= mon <= 11 && 1 <= mday <= MonthLength(leap, mon)
    ensures 0 <= MonthStart(leap, mon) + mday - 1 < if leap then 366 else 365
  {
    YearIsItsMonths(leap);
    if mon < 11 { MonthStartGrows(leap, mon, 11); }
  }

  lemma ClockRoundTrip(t: int, day: int, hour: int, min: int, sec: int)
    requires 0 <= hour <= 23 && 0 <= min <= 59 && 0 <= sec <= 59
    requires t == day * SECONDS_PER_DAY + hour * 3600 + min * 60 + sec
    ensures t / SECONDS_PER_DAY == day
    ensures var second := t % SECONDS_PER_DAY; second / 3600 == hour && second / 60 % 60 == min && second % 60 == sec
  {
    var second := hour * 3600 + min * 60 + sec;
    assert t / SECONDS_PER_DAY == day && t % SECONDS_PER_DAY == second;
    assert second / 60 == hour * 60 + min;
  }

  // The walk over months meets any description of the same day.
  lemma MonthOfDay(leap: bool, mon: int, mday: int)
    requires 0 <= mon <= 11 && 1 <= mday <= MonthLength(leap, mon)
    ensures WalkMonths(leap, 0, MonthStart(leap, mon) + mday - 1) == (mon, mday - 1)
  {
    DayOfYearInYear(leap, mon, mday);
    var day := MonthStart(leap, mon) + mday - 1;
    var w := WalkMonths(leap, 0, day);
    WalkMonthsKeeps(leap, 0, day);
    MonthIsUnique(leap, mon, mday - 1, w.0, w.1);
  }

  // The month comes from the day of the year, the clock from the second of the day.
  lemma CivilParts(t: int)
    ensures var c, second := CivilOf(t), t % SECONDS_PER_DAY;
      && (c.mon, c.mday - 1) == WalkMonths(IsLeap(c.year), 0, c.yday)
      && c.hour == second / 3600 && c.min == second / 60 % 60 && c.sec == second % 60
      && c.wday == (t / SECONDS_PER_DAY + 4) % 7
  {
  }

  // Every existing date is the breakdown of the second it names.
  lemma DateRoundTrip(c: Civil)
    requires ValidDate(c) && Consistent(c)
    ensures CivilOf(SecondsOf(c)) == c
  {
    var leap, t := IsLeap(c.year), SecondsOf(c);
    ClockRoundTrip(t, DayOf(c.year, c.mon, c.mday), c.hour, c.min, c.sec);
    hide SecondsOf;
    DayOfYearInYear(leap, c.mon, c.mday);
    MonthOfDay(leap, c.mon, c.mday);
    CivilParts(t);
    hide IsLeap, Jan1, MonthStart, WalkMonths, MonthLength, CivilOf;
    CivilOfDay(t, c.year, c.yday);
  }
}
