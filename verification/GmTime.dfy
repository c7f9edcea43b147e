/** Seconds to dates and dates to seconds in UTC, for every 64-bit time. The bodies of
    gmtime64_r and timegm64 are cut into a method for each of their phases; integers keep
    their C widths, so that every intermediate is proved to fit. */
module GmTime {
  import opened CInt
  import opened Calendar
  import opened Tm

  const CHEAT_DAYS: int := 1199145600 / 24 / 60 / 60
  const CHEAT_YEARS: int := 108

  // How a call ends: with a filled struct, with NULL, or in a signed 'int'
  // overflow, after which C promises nothing.
  datatype Outcome = Filled | Null | IntOverflow

  // Splits a time as the program does, by truncating divisions and three carries,
  // into what rounding down gives.
  method SplitClock(inTime: int64) returns (sec: int32, min: int32, hour: int32, day: int64)
    ensures day as int == inTime as int / SECONDS_PER_DAY
    ensures 0 <= sec < 60 && 0 <= min < 60 && 0 <= hour < 24
    ensures hour as int * 3600 + min as int * 60 + sec as int == inTime as int % SECONDS_PER_DAY
  {
    hide TruncDiv, TruncMod;
    var time := inTime as int;
    DivideBy(time, 60);
    sec := TruncMod(time, 60) as int32;
    time := TruncDiv(time, 60);
    DivideBy(time, 60);
    min := TruncMod(time, 60) as int32;
    time := TruncDiv(time, 60);
    DivideBy(time, 24);
    hour := TruncMod(time, 24) as int32;
    time := TruncDiv(time, 24);
    day := time as int64;
    if sec < 0 { min, sec := min - 1, sec + 60; }
    if min < 0 { hour, min := hour - 1, min + 60; }
    if hour < 0 { day, hour := day - 1, hour + 24; }
    DivisionIsUnique(inTime as int, SECONDS_PER_DAY, day as int, hour as int * 3600 + min as int * 60 + sec as int);
  }

  // What one of those divisions leaves for the carries.
  lemma DivideBy(a: int, b: int)
    requires b == 60 || b == 24
    ensures a == b * TruncDiv(a, b) + TruncMod(a, b) && -b < TruncMod(a, b) < b
    ensures a >= 0 ==> 0 <= TruncDiv(a, b) <= a
    ensures a <= 0 ==> a <= TruncDiv(a, b) <= 0
  {
  }

  // Where day 'm' of tm year 'year' falls: 'rest' days into month 'mon' of tm year 'y'.
  ghost predicate Locates(year: int64, m: int64, y: int64, leap: int, mon: int32, rest: int64) {
    && leap == LeapIndex(y as int)
    && 0 <= mon <= 11 && 0 <= rest as int < MonthLength(leap == 1, mon as int)
    && Jan1(y as int + 1900) + MonthStart(leap == 1, mon as int) + rest as int == Jan1(year as int + 1900) + m as int
  }

  // Whole 400-year cycles move the year and leave the day where it was.
  lemma SkipCycles(year: int, m: int, cycles: int)
    ensures Jan1(year + 400 * cycles + 1900) + (m - DAYS_PER_CYCLE * cycles) == Jan1(year + 1900) + m
  {
    Jan1Cycle(year + 1900, cycles);
  }

  // The month of a day of the year, from January on.
  method MonthForward(leap: int, inYear: int64) returns (mon: int32, m: int64)
    requires 0 <= leap <= 1 && 0 <= inYear as int < LENGTH_OF_YEAR[leap]
    ensures 0 <= mon <= 11 && 0 <= m as int < MonthLength(leap == 1, mon as int)
    ensures MonthStart(leap == 1, mon as int) + m as int == inYear as int
  {
    YearIsItsMonths(leap == 1);
    mon, m := 0, inYear;
    TablesAgree(leap, 0);
    while m as int >= DAYS_IN_MONTH[leap][mon]
      invariant 0 <= mon <= 11 && 0 <= m
      invariant MonthStart(leap == 1, mon as int) + m as int == inYear as int
      invariant DAYS_IN_MONTH[leap][mon] == MonthLength(leap == 1, mon as int)
      decreases m
    {
      m := m - DAYS_IN_MONTH[leap][mon] as int64;
      mon := mon + 1;
      TablesAgree(leap, mon as int);
    }
  }

  // The branch for days from the starting year on.
  method LocateForward(startYear: int64, startDay: int64) returns (year: int64, leap: int, mon: int32, m: int64, ghost steps: int)
    requires 70 <= startYear <= 108 && 0 <= startDay <= 0x1_0000_0000_0000
    ensures Locates(startYear, startDay, year, leap, mon, m)
    ensures 0 <= steps <= 400
  {
    year, m := startYear, startDay;
    var cycles := TruncDiv(m as int, DAYS_PER_CYCLE) as int32;
    if cycles != 0 {
      m := m - cycles as int64 * DAYS_PER_CYCLE as int64;
      year := year + cycles as int64 * 400;
    }
    SkipCycles(startYear as int, startDay as int, cycles as int);
    assert 0 <= m as int < DAYS_PER_CYCLE;
    ghost var fromYear, fromDay := year, m;
    leap := LeapIndex(year as int);
    while m as int >= LENGTH_OF_YEAR[leap]
      invariant fromYear <= year <= fromYear + 400 && leap == LeapIndex(year as int)
      invariant 0 <= m as int <= fromDay as int - 365 * (year as int - fromYear as int)
      invariant Jan1(year as int + 1900) + m as int == Jan1(startYear as int + 1900) + startDay as int
      decreases m
    {
      m := m - LENGTH_OF_YEAR[leap] as int64;
      year := year + 1;
      leap := LeapIndex(year as int);
    }
    steps := year as int - fromYear as int;
    mon, m := MonthForward(leap, m);
  }

  // Fewer than two cycles of days lie in fewer than 800 years.
  lemma WalkIsBounded(fromYear: int, fromDay: int, year: int, m: int)
    requires -2 * DAYS_PER_CYCLE < fromDay && m < 0
    requires Jan1(year) + m == Jan1(fromYear) + fromDay
    ensures year > fromYear - 800
  {
    Jan1Cycle(fromYear, -2);
    if year <= fromYear - 800 { Jan1AtMost(year, fromYear - 800); }
  }

  // The month of a day counted back from the end of the year, from December on.
  method MonthBackward(leap: int, inYear: int64) returns (mon: int32, m: int64)
    requires 0 <= leap <= 1 && -LENGTH_OF_YEAR[leap] <= inYear as int < 0
    ensures 0 <= mon <= 11 && 0 <= m as int < MonthLength(leap == 1, mon as int)
    ensures MonthStart(leap == 1, mon as int) + m as int == LENGTH_OF_YEAR[leap] + inYear as int
  {
    YearIsItsMonths(leap == 1);
    mon, m := 11, inYear;
    TablesAgree(leap, 11);
    while (m as int) < -DAYS_IN_MONTH[leap][mon]
      invariant 0 <= mon <= 11 && m < 0
      invariant DAYS_IN_MONTH[leap][mon] == MonthLength(leap == 1, mon as int)
      invariant LENGTH_OF_YEAR[leap] + inYear as int == MonthStart(leap == 1, mon as int) + DAYS_IN_MONTH[leap][mon] + m as int
      decreases -m as int
    {
      m := m + DAYS_IN_MONTH[leap][mon] as int64;
      mon := mon - 1;
      TablesAgree(leap, mon as int);
    }
    m := m + DAYS_IN_MONTH[leap][mon] as int64;
  }

  // The branch for days before the starting year. It overshoots by one cycle and
  // walks back, holding the day as a negative distance from the end of 'year'.
  method LocateBackward(startYear: int64, startDay: int64) returns (year: int64, leap: int, mon: int32, m: int64, ghost steps: int)
    requires startYear == 70 && -0x1_0000_0000_0000 <= startDay as int < 0
    ensures Locates(startYear, startDay, year, leap, mon, m)
    ensures 0 <= steps < 800
  {
    hide IsLeap, Jan1;
    year, m := startYear - 1, startDay;
    var cycles := (TruncDiv(m as int, DAYS_PER_CYCLE) + 1) as int32;
    if cycles != 0 {
      m := m - cycles as int64 * DAYS_PER_CYCLE as int64;
      year := year + cycles as int64 * 400;
    }
    SkipCycles(startYear as int, startDay as int, cycles as int);
    assert -2 * DAYS_PER_CYCLE < m as int <= -DAYS_PER_CYCLE;
    ghost var fromYear, fromDay := year, m;
    leap := LeapIndex(year as int);
    while (m as int) < -LENGTH_OF_YEAR[leap]
      invariant fromYear - 800 < year <= fromYear && leap == LeapIndex(year as int) && m < 0
      invariant Jan1(year as int + 1901) + m as int == Jan1(fromYear as int + 1901) + fromDay as int
      decreases -m as int
    {
      NextJan1(year as int + 1900);
      m := m + LENGTH_OF_YEAR[leap] as int64;
      year := year - 1;
      leap := LeapIndex(year as int);
      WalkIsBounded(fromYear as int + 1901, fromDay as int, year as int + 1901, m as int);
    }
    steps := fromYear as int - year as int;
    NextJan1(year as int + 1900);
    mon, m := MonthBackward(leap, m);
  }

  lemma LocatedCivil(t: int, y: int, leap: int, mon: int, m: int)
    requires leap == LeapIndex(y) && 0 <= mon <= 11 && 0 <= m < MonthLength(leap == 1, mon)
    requires Jan1(y + 1900) + MonthStart(leap == 1, mon) + m == t / SECONDS_PER_DAY
    ensures CivilOf(t).year == y + 1900 && CivilOf(t).mon == mon && CivilOf(t).mday == m + 1
    ensures CivilOf(t).yday == MonthStart(leap == 1, mon) + m
  {
    DayOfYearInYear(leap == 1, mon, m + 1);
    CivilOfDay(t, y + 1900, MonthStart(leap == 1, mon) + m);
    MonthOfDay(leap == 1, mon, m + 1);
  }

  lemma CivilClock(t: int, hour: int, min: int, sec: int)
    requires 0 <= hour < 24 && 0 <= min < 60 && 0 <= sec < 60
    requires hour * 3600 + min * 60 + sec == t % SECONDS_PER_DAY
    ensures CivilOf(t).hour == hour && CivilOf(t).min == min && CivilOf(t).sec == sec
    ensures CivilOf(t).wday == (t / SECONDS_PER_DAY + 4) % 7
  {
    ClockRoundTrip(t, t / SECONDS_PER_DAY, hour, min, sec);
  }

  lemma BrokenDown(t: int, y: int, leap: int, mon: int, m: int, hour: int, min: int, sec: int)
    requires leap == LeapIndex(y) && 0 <= mon <= 11 && 0 <= m < MonthLength(leap == 1, mon)
    requires Jan1(y + 1900) + MonthStart(leap == 1, mon) + m == t / SECONDS_PER_DAY
    requires 0 <= hour < 24 && 0 <= min < 60 && 0 <= sec < 60
    requires hour * 3600 + min * 60 + sec == t % SECONDS_PER_DAY
    ensures CivilOf(t) == Civil(y + 1900, mon, m + 1, hour, min, sec, (t / SECONDS_PER_DAY + 4) % 7,
                                JULIAN_DAYS_BY_MONTH[leap][mon] + m)
    ensures ValidDate(CivilOf(t)) && Consistent(CivilOf(t))
  {
    CivilOfIsValid(t);
    hide CivilOf, Jan1, IsLeap, ValidDate, Consistent;
    LocatedCivil(t, y, leap, mon, m);
    CivilClock(t, hour, min, sec);
    TablesAgree(leap, mon);
  }

  // The final check adds 1900 to the tm year in an 'int'.
  predicate CheckIsDefined(year: int) {
    year <= INT32_MAX
  }

  // The years the struct can hold and the check can add to.
  predicate YearChecks(year: int) {
    YearFits(year) && CheckIsDefined(year)
  }

  // The first second of the first year the struct can hold, of the first year it can hold but
  // the check cannot add to, and of the first year it cannot hold.
  const FIRST_SECOND: int := -67768040609740800
  const CHECK_END: int := 67767976233532800
  const END_SECOND: int := 67768036191676800

  lemma EdgeSeconds()
    ensures YearStart(INT32_MIN + 1900) == FIRST_SECOND && YearStart(INT32_MAX + 1901) == END_SECOND
    ensures YearStart(INT32_MAX + 1) == CHECK_END
  {
    hide Jan1;
    Jan1Closed(INT32_MIN + 1900);
    Jan1Closed(INT32_MAX + 1901);
    Jan1Closed(INT32_MAX + 1);
  }

  lemma TimeBounds(t: int)
    ensures YearFits(CivilOf(t).year) <==> FIRST_SECOND <= t < END_SECOND
    ensures YearChecks(CivilOf(t).year) <==> FIRST_SECOND <= t < CHECK_END
  {
    hide CivilOf, YearStart;
    EdgeSeconds();
    YearAtMost(t, INT32_MIN + 1899);
    YearAtMost(t, INT32_MAX + 1900);
    YearAtMost(t, INT32_MAX);
  }

  // The overflow is reached: the first time to do so starts a year the struct can hold.
  lemma SomeTimeOverflows() returns (t: int64)
    ensures t as int == CHECK_END && CivilOf(t as int).year == INT32_MAX + 1
    ensures YearFits(CivilOf(t as int).year) && !CheckIsDefined(CivilOf(t as int).year)
  {
    t := CHECK_END as int64;
    hide CivilOf, Jan1;
    TimeBounds(t as int);
    YearAtMost(t as int, INT32_MAX + 1);
    EdgeSeconds();
    Jan1Grows(INT32_MAX + 1, INT32_MAX + 2);
  }

  // The sanity check both conversions end with, which indexes a table by the month.
  predicate CheckTm(f: Fields)
    requires 0 <= f.mon <= 11 && CheckIsDefined(f.year as int + 1900)
  {
    && 0 <= f.sec <= 61 && 0 <= f.min <= 59 && 0 <= f.hour <= 23
    && 1 <= f.mday as int <= DAYS_IN_MONTH[LeapIndex(f.year as int)][f.mon]
    && 0 <= f.wday <= 6
    && 0 <= f.yday as int <= LENGTH_OF_YEAR[LeapIndex(f.year as int)]
  }

  // No broken-down time fails it.
  lemma CheckTmHolds(f: Fields, c: Civil, isdst: int32)
    requires Holds(f, c, isdst) && CheckIsDefined(c.year)
    ensures 0 <= f.mon <= 11 && f.year as int + 1900 == c.year && CheckTm(f)
  {
    TablesAgree(LeapIndex(c.year - 1900), c.mon);
    DayOfYearInYear(IsLeap(c.year), c.mon, c.mday);
  }

  lemma CheatIsNewYear()
    ensures Jan1(CHEAT_YEARS + 1900) == Jan1(1970) + CHEAT_DAYS
  {
    hide Jan1;
    Jan1Closed(CHEAT_YEARS + 1900);
    Jan1Closed(1970);
  }

  // The day, found from 1970 or, for speed, from 2008.
  method LocateDay(tday: int64) returns (year: int64, leap: int, mon: int32, m: int64)
    requires -0x1_0000_0000_0000 <= tday as int <= 0x1_0000_0000_0000
    ensures Locates(70, tday, year, leap, mon, m) && Jan1(1970) == 0
  {
    assert Jan1(1970) == 0;
    hide Jan1, IsLeap, MonthStart;
    year, m := 70, tday;
    if m as int >= CHEAT_DAYS {
      CheatIsNewYear();
      year := CHEAT_YEARS as int64;
      m := m - CHEAT_DAYS as int64;
    }
    ghost var steps: int;
    if m >= 0 {
      year, leap, mon, m, steps := LocateForward(year, m);
    } else {
      year, leap, mon, m, steps := LocateBackward(year, m);
    }
  }

  method Gmtime64R(inTime: int64, p: TmStruct) returns (r: Outcome)
    modifies p
    ensures r == Null <==> !(FIRST_SECOND <= inTime as int < END_SECOND)
    ensures r == IntOverflow <==> CHECK_END <= inTime as int < END_SECOND
    ensures r != Null ==> Holds(p.Value(), CivilOf(inTime as int), 0)
  {
    hide CivilOf, IsLeap, Jan1, MonthStart, ValidDate, Consistent, WrapInt32, TruncDiv, TruncMod, CheckTm;
    ghost var c := CivilOf(inTime as int);
    TimeBounds(inTime as int);
    p.isdst := 0;
    var vSec, vMin, vHour, tday := SplitClock(inTime);
    RepairedDivision(tday as int + 4, 7);
    var vWday := TruncMod(tday as int + 4, 7) as int32;
    if vWday < 0 { vWday := vWday + 7; }
    var year, leap, vMon, m := LocateDay(tday);
    BrokenDown(inTime as int, year as int, leap, vMon as int, m as int, vHour as int, vMin as int, vSec as int);
    WrapKeepsWhatFits(year as int);
    p.year := WrapInt32(year as int);
    if p.year as int64 != year { return Null; }
    p.mday := m as int32 + 1;
    p.yday := JULIAN_DAYS_BY_MONTH[leap][vMon] as int32 + m as int32;
    p.sec := vSec;
    p.min := vMin;
    p.hour := vHour;
    p.mon := vMon;
    p.wday := vWday;
    assert Holds(p.Value(), c, 0);
    if !CheckIsDefined(p.year as int + 1900) { return IntOverflow; }
    CheckTmHolds(p.Value(), c, 0);
    assert CheckTm(p.Value());
    return Filled;
  }

  // The clock fields timegm64 can scale in an 'int'.
  predicate ClockScales(f: Fields) {
    FitsInt32(f.hour as int * 3600) && FitsInt32(f.min as int * 60) && FitsInt32(f.mday as int - 1)
  }

  // The cycles timegm64 skips leave the year within reach of 1970.
  method ReduceYear(origYear: int64) returns (year: int64, days: int64)
    requires FitsInt32(origYear as int)
    ensures -300 <= year <= 499 && IsLeap(year as int + 1900) == IsLeap(origYear as int + 1900)
    ensures Jan1(origYear as int + 1900) == Jan1(year as int + 1900) + days as int
    ensures -0x100_0000_0000 <= days as int <= 0x100_0000_0000
  {
    hide IsLeap, Jan1;
    year, days := origYear, 0;
    if origYear > 100 || origYear < -300 {
      var cycles := TruncDiv(origYear as int - 100, 400) as int32;
      year := year - (cycles * 400) as int64;
      days := days + cycles as int64 * DAYS_PER_CYCLE as int64;
      Jan1Cycle(year as int + 1900, cycles as int);
    }
  }

  // Adds the days from 1970 to the reduced year, a year at a time in either direction.
  method CountYears(origYear: int64, startDays: int64) returns (days: int64)
    requires -300 <= origYear <= 499 && -0x100_0000_0000 <= startDays as int <= 0x100_0000_0000
    ensures days as int == startDays as int + Jan1(origYear as int + 1900)
    ensures -0x200_0000_0000 <= days as int <= 0x200_0000_0000
  {
    days := startDays;
    assert Jan1(1970) == 0;
    hide IsLeap, TruncDiv, TruncMod;
    var year: int64;
    if origYear > 70 {
      year := 70;
      while year < origYear
        invariant 70 <= year <= origYear
        invariant days as int == startDays as int + Jan1(year as int + 1900)
        invariant 0 <= days as int - startDays as int <= 366 * (year as int - 70)
      {
        NextJan1(year as int + 1900);
        days := days + LENGTH_OF_YEAR[LeapIndex(year as int)] as int64;
        year := year + 1;
      }
    } else if origYear < 70 {
      year := 69;
      NextJan1(year as int + 1900);
      days := days - LENGTH_OF_YEAR[LeapIndex(year as int)] as int64;
      year := year - 1;
      while year >= origYear
        invariant origYear - 1 <= year <= 68
        invariant days as int == startDays as int + Jan1(year as int + 1901)
        invariant 0 <= startDays as int - days as int <= 366 * (69 - year as int)
      {
        NextJan1(year as int + 1900);
        days := days - LENGTH_OF_YEAR[LeapIndex(year as int)] as int64;
        year := year - 1;
      }
    }
  }

  method Timegm64(date: TmStruct) returns (seconds: int64)
    requires 0 <= date.mon <= 11 && ClockScales(date.Value())
    ensures seconds as int == SecondsOf(CivilOfFields(date.Value()))
  {
    var origYear, skipped := ReduceYear(date.year as int64);
    var days := CountYears(origYear, skipped);
    hide IsLeap, Jan1, TruncDiv, TruncMod;
    var leap := LeapIndex(origYear as int);
    TablesAgree(leap, date.mon as int);
    days := days + JULIAN_DAYS_BY_MONTH[leap][date.mon] as int64;
    days := days + (date.mday - 1) as int64;
    seconds := days * 60 * 60 * 24;
    seconds := seconds + (date.hour * 60 * 60) as int64;
    seconds := seconds + (date.min * 60) as int64;
    seconds := seconds + date.sec as int64;
  }

  // ---- The two conversions undo each other

  // timegm64 after gmtime64_r: the struct gmtime64_r fills names the time it was given.
  lemma GmtimeThenTimegm(t: int, f: Fields)
    requires Holds(f, CivilOf(t), f.isdst)
    ensures 0 <= f.mon <= 11 && ClockScales(f)
    ensures SecondsOf(CivilOfFields(f)) == t
  {
    CivilRoundTrip(t);
    assert CivilOfFields(f) == CivilOf(t);
  }

  // gmtime64_r after timegm64: any existing date comes back, whatever 'int' year it has.
  lemma TimegmThenGmtime(f: Fields)
    requires ValidDate(CivilOfFields(f)) && Consistent(CivilOfFields(f))
    ensures Holds(f, CivilOf(SecondsOf(CivilOfFields(f))), f.isdst)
  {
    DateRoundTrip(CivilOfFields(f));
  }

  // Main result, on the program itself: a time it breaks down comes back from the struct.
  method TimeComesBack(time: int64) returns (r: Outcome, back: int64)
    ensures r == Filled <==> FIRST_SECOND <= time as int < CHECK_END
    ensures r == Filled ==> back == time
  {
    back := 0;
    var p := new TmStruct();
    hide CivilOf, Holds, SecondsOf, CivilOfFields, ClockScales;
    r := Gmtime64R(time, p);
    if r != Filled { return; }
    GmtimeThenTimegm(time as int, p.Value());
    back := Timegm64(p);
  }

  // ... and the struct of an existing date from the time it names.
  method DateComesBack(date: TmStruct, p: TmStruct) returns (r: Outcome)
    requires ValidDate(CivilOfFields(date.Value())) && Consistent(CivilOfFields(date.Value()))
    modifies p
    ensures r == if CheckIsDefined(old(date.year) as int + 1900) then Filled else IntOverflow
    ensures p.Value() == old(date.Value()).(isdst := 0)
  {
    ghost var f := date.Value();
    DateScales(f);
    TimegmThenGmtime(f);
    TimeBounds(SecondsOf(CivilOfFields(f)));
    HoldsYear(f, CivilOf(SecondsOf(CivilOfFields(f))), f.isdst);
    hide CivilOf, ValidDate, Consistent, SecondsOf, CivilOfFields, ClockScales;
    var seconds := Timegm64(date);
    r := Gmtime64R(seconds, p);
  }

  lemma DateScales(f: Fields)
    requires ValidDate(CivilOfFields(f))
    ensures 0 <= f.mon <= 11 && ClockScales(f)
  {
  }
}
