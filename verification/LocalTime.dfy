/** Local time for every 64-bit time, from a platform that knows only 1970 to 2037. */
module LocalTime {
  import opened CInt
  import opened Calendar
  import opened SafeYears
  import opened Tm
  import opened GmTime

  // Everything about a moment or a date but which year it is in.
  datatype CalendarPoint = CalendarPoint(leap: bool, jan1: int, yday: int, second: int)

  function PointOf(t: int): CalendarPoint {
    var c := CivilOf(t);
    CalendarPoint(IsLeap(c.year), Jan1(c.year) % 7, c.yday, t % SECONDS_PER_DAY)
  }

  // Two moments are at the same point exactly when their broken-down times differ at most in the
  // year and in being moved by whole weeks, and the years are as long.
  lemma SamePoint(t: int, u: int)
    ensures PointOf(t) == PointOf(u) <==>
      && CivilOf(u).(year := CivilOf(t).year) == CivilOf(t)
      && IsLeap(CivilOf(t).year) == IsLeap(CivilOf(u).year)
  {
    SecondOfDay(t, u);
    WeekdayOfNewYear(t);
    WeekdayOfNewYear(u);
    if CivilOf(t).yday == CivilOf(u).yday {
      SameWeekday(Jan1(CivilOf(t).year), Jan1(CivilOf(u).year), CivilOf(t).yday + 4, CivilOf(u).yday + 4);
      if t % SECONDS_PER_DAY == u % SECONDS_PER_DAY && IsLeap(CivilOf(t).year) == IsLeap(CivilOf(u).year) {
        CivilOfIsValid(t);
        CivilOfIsValid(u);
        SameMonthAndClock(t, u);
      }
    }
    hide CivilOf, ValidDate, Consistent, Jan1, IsLeap;
  }

  lemma SecondOfDay(t: int, u: int)
    ensures CivilOf(t).hour == CivilOf(u).hour && CivilOf(t).min == CivilOf(u).min && CivilOf(t).sec == CivilOf(u).sec
      <==> t % SECONDS_PER_DAY == u % SECONDS_PER_DAY
  {
    CivilRoundTrip(t);
    CivilRoundTrip(u);
    SecondFromClock(t);
    SecondFromClock(u);
    hide SecondsOf;
  }

  lemma SecondFromClock(t: int)
    ensures var c := CivilOf(t); t % SECONDS_PER_DAY == c.hour * 3600 + c.min * 60 + c.sec
  {
    var s := t % SECONDS_PER_DAY;
    var m := s / 60;
    DivisionIsUnique(s, 3600, m / 60, m % 60 * 60 + s % 60);
  }

  // The weekday of a day comes from that of its new year.
  lemma WeekdayOfNewYear(t: int)
    ensures CivilOf(t).wday == (Jan1(CivilOf(t).year) + CivilOf(t).yday + 4) % 7
  {
    WalkYearsKeeps(1970, t / SECONDS_PER_DAY);
  }

  lemma SameWeekday(a: int, b: int, i: int, j: int)
    requires i == j
    ensures (a + i) % 7 == (b + j) % 7 <==> a % 7 == b % 7
  {
    if a % 7 == b % 7 { ShiftedRemainder(a, b, i, 7); }
    if (a + i) % 7 == (b + j) % 7 { ShiftedRemainder(a + i, b + j, -i, 7); }
  }

  // A time zone whose rules do not change: the offset from UTC at a moment, its daylight flag,
  // and what mktime subtracts from a local date. Each may depend on the whole calendar, as
  // rules like "the last Sunday in March" do, but not on which year has that calendar.
  datatype Zone = Zone(offset: CalendarPoint -> int, dst: CalendarPoint -> int32, back: CalendarPoint -> int)

  ghost predicate ValidZone(zone: Zone) {
    && (forall p :: -SECONDS_PER_DAY < zone.offset(p) < SECONDS_PER_DAY)
    && (forall p :: -SECONDS_PER_DAY < zone.back(p) < SECONDS_PER_DAY)
  }

  function FixedZone(offset: int): Zone {
    Zone((p: CalendarPoint) => offset, (p: CalendarPoint) => 0, (p: CalendarPoint) => offset)
  }

  function LocalCivil(zone: Zone, t: int): Civil {
    CivilOf(t + zone.offset(PointOf(t)))
  }

  // ---- Moving a moment to another year with the same calendar

  function Transplant(t: int, toYear: int): int {
    t - YearStart(CivilOf(t).year) + YearStart(toYear)
  }

  // A moment at most a day outside a year, in the year and the day of it.
  lemma CivilNearYear(year: int, x: int)
    requires -SECONDS_PER_DAY <= x < (YearLength(year) + 1) * SECONDS_PER_DAY
    ensures var c, day := CivilOf(YearStart(year) + x), x / SECONDS_PER_DAY;
      && c.year == (if day < 0 then year - 1 else if day < YearLength(year) then year else year + 1)
      && c.yday == (if day < 0 then YearLength(year - 1) - 1 else if day < YearLength(year) then day else 0)
      && c.wday == (Jan1(year) + day + 4) % 7
  {
    var t, day := YearStart(year) + x, x / SECONDS_PER_DAY;
    DivisionIsUnique(t, SECONDS_PER_DAY, Jan1(year) + day, x % SECONDS_PER_DAY);
    NextJan1(year - 1);
    NextJan1(year);
    if day < 0 { CivilOfDay(t, year - 1, YearLength(year - 1) - 1); }
    else if day < YearLength(year) { CivilOfDay(t, year, day); }
    else { CivilOfDay(t, year + 1, 0); }
  }

  // The month and day depend on the day of the year and, after January 1, its leap status;
  // the clock on the second of the day.
  lemma SameMonthAndClock(t: int, u: int)
    requires CivilOf(t).yday == CivilOf(u).yday
    requires IsLeap(CivilOf(t).year) == IsLeap(CivilOf(u).year) || CivilOf(t).yday == 0
    requires t % SECONDS_PER_DAY == u % SECONDS_PER_DAY
    ensures CivilOf(t).mon == CivilOf(u).mon && CivilOf(t).mday == CivilOf(u).mday
    ensures CivilOf(t).hour == CivilOf(u).hour && CivilOf(t).min == CivilOf(u).min && CivilOf(t).sec == CivilOf(u).sec
  {
  }

  // In two years with the same calendar the same moment reads the same, up to the year.
  lemma SameReading(y: int, z: int, x: int)
    requires SameCalendar(y, z)
    requires -SECONDS_PER_DAY <= x < (YearLength(y) + 1) * SECONDS_PER_DAY
    ensures var c, d := CivilOf(YearStart(y) + x), CivilOf(YearStart(z) + x);
      d == c.(year := c.year - y + z)
  {
    hide CivilOf, IsLeap, Jan1;
    CivilNearYear(y, x);
    CivilNearYear(z, x);
    ShiftedRemainder(Jan1(y), Jan1(z), x / SECONDS_PER_DAY + 4, 7);
    SameRemainder(YearStart(y) + x, YearStart(z) + x, SECONDS_PER_DAY, Jan1(y) - Jan1(z));
    SameMonthAndClock(YearStart(y) + x, YearStart(z) + x);
  }

  // A moment moved to a year with the same calendar: nothing but the year changes, nor does
  // it after an offset of less than a day, and the zone sees the same point.
  lemma TransplantKeeps(t: int, toYear: int, offset: int)
    requires SameCalendar(CivilOf(t).year, toYear)
    requires -SECONDS_PER_DAY < offset < SECONDS_PER_DAY
    ensures var c, u := CivilOf(t + offset), Transplant(t, toYear);
      && CivilOf(u + offset) == c.(year := c.year - CivilOf(t).year + toYear)
      && PointOf(u) == PointOf(t)
  {
    var y := CivilOf(t).year;
    PositionInYear(t);
    var x := t - YearStart(y);
    hide CivilOf, IsLeap, Jan1;
    SameReading(y, toYear, x + offset);
    SameReading(y, toYear, x);
    assert YearStart(y) + x == t && YearStart(toYear) + x == Transplant(t, toYear);
    SameRemainder(t, Transplant(t, toYear), SECONDS_PER_DAY, Jan1(y) - Jan1(toYear));
  }

  // Replacing the year of a broken-down time moves the moment it names.
  lemma ReplacedYear(t: int, toYear: int)
    requires IsLeap(CivilOf(t).year) == IsLeap(toYear)
    ensures ValidDate(CivilOf(t))
    ensures SecondsOf(CivilOf(t).(year := toYear)) == Transplant(t, toYear)
  {
    CivilRoundTrip(t);
  }

  // January and December by day of the year.
  lemma EdgeOfYear(c: Civil)
    requires ValidDate(c) && Consistent(c)
    ensures c.mon == 0 <==> c.yday <= 30
    ensures c.mon == 11 <==> c.yday >= YearLength(c.year) - 31
  {
    YearIsItsMonths(IsLeap(c.year));
    DayOfYearInYear(IsLeap(c.year), c.mon, c.mday);
    if c.mon > 0 { MonthStartGrows(IsLeap(c.year), 0, c.mon); }
    if c.mon < 11 { MonthStartGrows(IsLeap(c.year), c.mon, 11); }
  }

  // Over less than a day the year changes exactly when the month jumps by eleven.
  lemma YearFollowsMonth(t: int, offset: int)
    requires -SECONDS_PER_DAY < offset < SECONDS_PER_DAY
    ensures var g, l := CivilOf(t), CivilOf(t + offset);
      l.year == g.year + (if l.mon - g.mon == 11 then -1 else if l.mon - g.mon == -11 then 1 else 0)
  {
    var g, l := CivilOf(t), CivilOf(t + offset);
    PositionInYear(t);
    CivilOfIsValid(t);
    CivilOfIsValid(t + offset);
    var x := t - YearStart(g.year);
    hide CivilOf, IsLeap, Jan1;
    assert YearStart(g.year) + (x + offset) == t + offset;
    CivilNearYear(g.year, x + offset);
    EdgeOfYear(g);
    EdgeOfYear(l);
  }

  // ---- localtime64_r

  // What the platform says about a moment it can handle: the offset from UTC, and the
  // daylight flag.
  datatype Platform = Platform(offset: int -> int, dst: int -> int32)

  ghost predicate ValidPlatform(platform: Platform) {
    forall u :: 0 <= u <= INT32_MAX - SECONDS_PER_DAY ==> -SECONDS_PER_DAY < platform.offset(u) < SECONDS_PER_DAY
  }

  // The year localtime64_r asks the platform about instead of a time's own ...
  function PlatformYear(year: int): int {
    if year > 2037 || year < 1970 then SafeYear(year) else year
  }

  // ... and the moment, which is the same moment of that year.
  function Asked(t: int): int {
    Transplant(t, PlatformYear(CivilOf(t).year))
  }

  lemma PlatformYearMatches(year: int)
    ensures 1970 <= PlatformYear(year) <= 2037 && SameCalendar(year, PlatformYear(year))
  {
    SafeYearMatches(year);
  }

  // The platform is only asked about moments it can handle, and about a time of its own years
  // that is the time itself.
  lemma AskedIsSafe(t: int)
    ensures 0 <= Asked(t) <= INT32_MAX - SECONDS_PER_DAY
    ensures 1970 <= CivilOf(t).year <= 2037 ==> Asked(t) == t
  {
    hide CivilOf, IsLeap, Jan1, SafeYear;
    PlatformYearMatches(CivilOf(t).year);
    SafeYearIsSafeTime(t, PlatformYear(CivilOf(t).year));
  }

  // It is the same moment of the year asked about.
  lemma AskedYear(t: int)
    ensures CivilOf(Asked(t)).year == PlatformYear(CivilOf(t).year)
    ensures CivilOf(Asked(t)) == CivilOf(t).(year := PlatformYear(CivilOf(t).year))
    ensures CivilOf(t).year > 2037 ==> 2010 <= CivilOf(Asked(t)).year <= 2037
    ensures CivilOf(t).year < 1970 ==> 1971 <= CivilOf(Asked(t)).year <= 1998
  {
    hide CivilOf, IsLeap, Jan1, SafeYear, PointOf;
    SafeYearMatches(CivilOf(t).year);
    PlatformYearMatches(CivilOf(t).year);
    TransplantKeeps(t, PlatformYear(CivilOf(t).year), 0);
  }

  // Local time by the offset at the moment asked about.
  function LocalBy(platform: Platform, t: int): Civil {
    CivilOf(t + platform.offset(Asked(t)))
  }

  // The platform's localtime, asked only about moments a 32-bit time_t can hold.
  method PlatformLocaltime(platform: Platform, clock: int64, result: TmStruct)
    requires ValidPlatform(platform) && 0 <= clock as int <= INT32_MAX - SECONDS_PER_DAY
    modifies result
    ensures Holds(result.Value(), CivilOf(clock as int + platform.offset(clock as int)), platform.dst(clock as int))
  {
    ghost var local := clock as int + platform.offset(clock as int);
    PlatformTimesFit(local);
    hide CivilOf, ValidDate, Consistent, FieldsOf, YearFits, ValidPlatform;
    result.Assign(FieldsOf(CivilOf(clock as int + platform.offset(clock as int)), platform.dst(clock as int)));
  }

  lemma PlatformTimesFit(t: int)
    requires -SECONDS_PER_DAY <= t <= INT32_MAX
    ensures ValidDate(CivilOf(t)) && Consistent(CivilOf(t)) && YearFits(CivilOf(t).year)
  {
    hide CivilOf, ValidDate, Consistent;
    CivilOfIsValid(t);
    SafeMomentsFit(t);
  }

  method CopyPlatformLocaltime(platform: Platform, clock: int64, localTm: TmStruct)
    requires ValidPlatform(platform) && 0 <= clock as int <= INT32_MAX - SECONDS_PER_DAY
    modifies localTm
    ensures Holds(localTm.Value(), CivilOf(clock as int + platform.offset(clock as int)), platform.dst(clock as int))
  {
    hide *;
    var safeDate := new TmStruct();
    PlatformLocaltime(platform, clock, safeDate);
    localTm.Assign(safeDate.Value());
  }

  lemma SafeMomentsFit(t: int)
    requires -SECONDS_PER_DAY <= t <= INT32_MAX
    ensures 1969 <= CivilOf(t).year <= 2038
  {
    var y := CivilOf(t).year;
    PositionInYear(t);
    NextJan1(y);
    hide CivilOf, IsLeap;
    SafeNewYears();
    if y < 1969 { Jan1AtMost(y + 1, 1969); }
    if y > 2038 { Jan1AtMost(2039, y); }
  }

  lemma SafeNewYears()
    ensures Jan1(1969) == -365 && Jan1(1970) == 0 && Jan1(2038) == 24837 && Jan1(2039) == 25202
  {
    hide Jan1;
    Jan1Closed(1969);
    Jan1Closed(1970);
    Jan1Closed(2038);
    Jan1Closed(2039);
  }

  // A broken-down time in a safe year names a moment the platform can take.
  lemma SafeYearIsSafeTime(t: int, toYear: int)
    requires 1970 <= toYear <= 2037 && IsLeap(toYear) == IsLeap(CivilOf(t).year)
    ensures 0 <= Transplant(t, toYear) <= INT32_MAX - SECONDS_PER_DAY
  {
    PositionInYear(t);
    NextJan1(toYear);
    hide CivilOf, IsLeap;
    SafeNewYears();
    Jan1AtMost(1970, toYear);
    Jan1AtMost(toYear + 1, 2038);
  }

  // Where localtime64_r's 'int' arithmetic stays in range: the time and the local time both
  // lie in years that fit with 1900 to spare.
  predicate LocaltimeIsDefined(t: int, offset: int) {
    FIRST_SECOND <= t < CHECK_END && FIRST_SECOND <= t + offset < CHECK_END
  }

  // Corrects a 366th day in a year that has none.
  method FixYearDay(tm: TmStruct)
    requires CheckIsDefined(tm.year as int + 1900)
    modifies tm
    ensures var f := old(tm.Value());
      tm.Value() == if !IsLeap(f.year as int + 1900) && f.yday == 365 then f.(yday := 364) else f
  {
    if LeapIndex(tm.year as int) == 0 && tm.yday == 365 {
      tm.yday := tm.yday - 1;
    }
  }

  // The time and the local time wanted, whose years the months tell apart.
  lemma WantedTime(platform: Platform, t: int)
    requires ValidPlatform(platform)
    ensures var g, l := CivilOf(t), LocalBy(platform, t);
      && ValidDate(g) && Consistent(g) && ValidDate(l) && Consistent(l)
      && l.year == g.year + (if l.mon - g.mon == 11 then -1 else if l.mon - g.mon == -11 then 1 else 0)
  {
    AskedIsSafe(t);
    hide CivilOf, Asked, ValidDate, Consistent;
    CivilOfIsValid(t);
    CivilOfIsValid(t + platform.offset(Asked(t)));
    YearFollowsMonth(t, platform.offset(Asked(t)));
  }

  // The question put to the platform, and how its answer relates to the time wanted.
  lemma PlatformAnswer(platform: Platform, t: int)
    requires ValidPlatform(platform)
    ensures var g, l, u := CivilOf(t), LocalBy(platform, t), Asked(t);
      && ValidDate(g) && 0 <= u <= INT32_MAX - SECONDS_PER_DAY
      && SecondsOf(g.(year := PlatformYear(g.year))) == u
      && CivilOf(u + platform.offset(u)) == l.(year := l.year - g.year + PlatformYear(g.year))
  {
    AskedIsSafe(t);
    hide CivilOf, IsLeap, Jan1, PointOf, SecondsOf, PlatformYear;
    PlatformYearMatches(CivilOf(t).year);
    ReplacedYear(t, PlatformYear(CivilOf(t).year));
    TransplantKeeps(t, PlatformYear(CivilOf(t).year), platform.offset(Asked(t)));
  }

  // The local time wanted, moved as the platform year is.
  function OnPlatform(platform: Platform, t: int): Civil {
    var g, l := CivilOf(t), LocalBy(platform, t);
    l.(year := l.year - g.year + PlatformYear(g.year))
  }

  lemma PlatformYearFits(year: int)
    ensures 1970 <= PlatformYear(year) <= 2037
  {
    PlatformYearMatches(year);
  }

  // The struct, in the year the platform is asked about.
  function InPlatformYear(f: Fields): Fields {
    PlatformYearFits(f.year as int + 1900);
    f.(year := (PlatformYear(f.year as int + 1900) - 1900) as int32)
  }

  lemma QuestionIsDated(t: int, gm: Fields, f: Fields)
    requires ValidDate(CivilOf(t)) && Consistent(CivilOf(t)) && Holds(gm, CivilOf(t), 0) && f == InPlatformYear(gm)
    ensures 0 <= f.mon <= 11 && f.mon == gm.mon && ClockScales(f)
    ensures CivilOfFields(f) == CivilOf(t).(year := PlatformYear(CivilOf(t).year))
  {
    PlatformYearFits(CivilOf(t).year);
    hide CivilOf, IsLeap, Jan1, MonthStart, PlatformYear;
  }

  // The moment a moved struct names, and what the platform says about it.
  lemma PlatformQuestion(platform: Platform, t: int, gm: Fields, f: Fields)
    requires ValidPlatform(platform) && Holds(gm, CivilOf(t), 0) && f == InPlatformYear(gm)
    ensures 0 <= f.mon <= 11 && f.mon == gm.mon && ClockScales(f)
    ensures var u := SecondsOf(CivilOfFields(f));
      && u == Asked(t) && 0 <= u <= INT32_MAX - SECONDS_PER_DAY
      && CivilOf(u + platform.offset(u)) == OnPlatform(platform, t)
  {
    PlatformAnswer(platform, t);
    CivilOfIsValid(t);
    QuestionIsDated(t, gm, f);
    hide CivilOf, CivilOfFields, ClockScales, InPlatformYear, Holds, ValidDate, Consistent, SecondsOf, Asked, LocalBy, PlatformYear;
  }

  method MapYear(gm: TmStruct)
    requires CheckIsDefined(gm.year as int + 1900)
    modifies gm
    ensures gm.Value() == InPlatformYear(old(gm.Value()))
    ensures 1970 <= gm.year as int + 1900 <= 2037
  {
    PlatformYearFits(gm.year as int + 1900);
    hide SafeYear;
    if gm.year > 2037 - 1900 || gm.year < 1970 - 1900 {
      gm.year := (SafeYear(gm.year as int + 1900) - 1900) as int32;
    }
  }

  // Asks the platform about the moment a struct names.
  method AskAbout(platform: Platform, gm: TmStruct, localTm: TmStruct)
    requires ValidPlatform(platform) && gm != localTm && 0 <= gm.mon <= 11 && ClockScales(gm.Value())
    requires 0 <= SecondsOf(CivilOfFields(gm.Value())) <= INT32_MAX - SECONDS_PER_DAY
    modifies localTm
    ensures var u := SecondsOf(CivilOfFields(old(gm.Value())));
      Holds(localTm.Value(), CivilOf(u + platform.offset(u)), platform.dst(u))
  {
    hide *;
    var safeTime := Timegm64(gm);
    CopyPlatformLocaltime(platform, safeTime, localTm);
  }

  // Asks the platform about the UTC time in 'gm', moved to a year it can handle.
  method AskPlatform(platform: Platform, ghost t: int, gm: TmStruct, localTm: TmStruct)
    requires ValidPlatform(platform) && gm != localTm
    requires CheckIsDefined(gm.year as int + 1900) && Holds(gm.Value(), CivilOf(t), 0)
    modifies gm, localTm
    ensures gm.mon == old(gm.mon)
    ensures Holds(localTm.Value(), OnPlatform(platform, t), platform.dst(Asked(t)))
  {
    hide CivilOf, Asked, SecondsOf, LocalBy, OnPlatform, InPlatformYear, Holds, CivilOfFields, ClockScales, ValidPlatform;
    ghost var before := gm.Value();
    MapYear(gm);
    PlatformQuestion(platform, t, before, gm.Value());
    AskAbout(platform, gm, localTm);
  }

  function YearShift(monthDiff: int): int {
    if monthDiff == 11 then -1 else if monthDiff == -11 then 1 else 0
  }

  // Puts the real year back into the platform's answer.
  method RestoreYear(localTm: TmStruct, origYear: int32, gmMon: int32) returns (r: Outcome)
    requires CheckIsDefined(origYear as int + 1900)
    requires 0 <= localTm.mon <= 11 && 0 <= gmMon <= 11
    modifies localTm
    ensures r != Null
    ensures var f := old(localTm.Value());
      var year := origYear as int + YearShift(f.mon as int - gmMon as int);
      && (r == Filled <==> FitsInt32(year) && CheckIsDefined(year + 1900))
      && (r == Filled ==> (IsLeap(year + 1900) || f.yday != 365) ==> localTm.Value() == f.(year := year as int32))
  {
    hide IsLeap;
    localTm.year := origYear;
    var monthDiff := localTm.mon - gmMon;
    if monthDiff == 11 {
      if localTm.year as int == INT32_MIN { return IntOverflow; }
      localTm.year := localTm.year - 1;
    }
    if monthDiff == -11 {
      localTm.year := localTm.year + 1;
    }
    if !CheckIsDefined(localTm.year as int + 1900) { return IntOverflow; }
    FixYearDay(localTm);
    return Filled;
  }

  // The correction never has anything to correct, because safe_year matches the leap status
  // of the previous year too.
  lemma NoYearDayToFix(c: Civil)
    requires ValidDate(c) && Consistent(c)
    ensures IsLeap(c.year) || c.yday != 365
  {
    DayOfYearInYear(IsLeap(c.year), c.mon, c.mday);
  }

  // Giving the platform's answer its real year back makes it the answer wanted.
  lemma YearRestored(platform: Platform, t: int, f: Fields, gm: Fields, isdst: int32)
    requires ValidPlatform(platform)
    requires Holds(gm, CivilOf(t), 0) && Holds(f, OnPlatform(platform, t), isdst)
    ensures var l := LocalBy(platform, t);
      && 0 <= f.mon <= 11 && 0 <= gm.mon <= 11
      && l.year == gm.year as int + 1900 + YearShift(f.mon as int - gm.mon as int)
      && (IsLeap(l.year) || f.yday != 365)
      && (YearFits(l.year) ==> Holds(f.(year := (l.year - 1900) as int32), l, isdst))
  {
    WantedTime(platform, t);
    NoYearDayToFix(LocalBy(platform, t));
    hide CivilOf, IsLeap, Jan1, MonthStart, SecondsOf, Transplant, Asked, LocalBy, PlatformYear;
  }

  // The local time of the UTC time in 'gm'.
  method FromUtc(platform: Platform, ghost t: int, gm: TmStruct, localTm: TmStruct) returns (r: Outcome)
    requires ValidPlatform(platform) && gm != localTm
    requires CheckIsDefined(gm.year as int + 1900) && Holds(gm.Value(), CivilOf(t), 0)
    modifies gm, localTm
    ensures r == if YearChecks(LocalBy(platform, t).year) then Filled else IntOverflow
    ensures r == Filled ==> Holds(localTm.Value(), LocalBy(platform, t), platform.dst(Asked(t)))
  {
    ghost var l, dst := LocalBy(platform, t), platform.dst(Asked(t));
    hide CivilOf, IsLeap, Asked, LocalBy, OnPlatform, CheckTm, ValidPlatform, Holds;
    var origYear := gm.year;
    ghost var gmFields := gm.Value();
    AskPlatform(platform, t, gm, localTm);
    YearRestored(platform, t, localTm.Value(), gmFields, dst);
    r := RestoreYear(localTm, origYear, gm.mon);
    if r != Filled { return; }
    CheckTmHolds(localTm.Value(), l, dst);
    assert CheckTm(localTm.Value());
  }

  // Main result: wherever its arithmetic is defined, localtime64_r gives the local time by the
  // platform's offset at the moment it asks about.
  method Localtime64R(platform: Platform, time: int64, localTm: TmStruct) returns (r: Outcome)
    requires ValidPlatform(platform)
    modifies localTm
    ensures r == Null <==> !(FIRST_SECOND <= time as int < END_SECOND)
    ensures r == Filled <==> LocaltimeIsDefined(time as int, platform.offset(Asked(time as int)))
    ensures r == Filled ==> Holds(localTm.Value(), LocalBy(platform, time as int), platform.dst(Asked(time as int)))
  {
    ghost var t := time as int;
    TimeBounds(t);
    TimeBounds(t + platform.offset(Asked(t)));
    assert LocaltimeIsDefined(t, platform.offset(Asked(t))) <==> YearChecks(CivilOf(t).year) && YearChecks(LocalBy(platform, t).year);
    hide CivilOf, Asked, LocalBy, ValidPlatform, Holds, LocaltimeIsDefined;
    var gm := new TmStruct();
    r := Gmtime64R(time, gm);
    if r != Filled { return; }
    HoldsYear(gm.Value(), CivilOf(t), 0);
    r := FromUtc(platform, t, gm, localTm);
  }

  // ---- A platform whose zone does not change

  function PlatformOf(zone: Zone): Platform {
    Platform((u: int) => zone.offset(PointOf(u)), (u: int) => zone.dst(PointOf(u)))
  }

  lemma PlatformIsValid(zone: Zone)
    requires ValidZone(zone)
    ensures ValidPlatform(PlatformOf(zone))
  {
    hide PointOf;
    forall u: int ensures -SECONDS_PER_DAY < PlatformOf(zone).offset(u) < SECONDS_PER_DAY {
      assert PlatformOf(zone).offset(u) == zone.offset(PointOf(u));
    }
  }

  // Such a zone sees the moment asked about as it would the time itself.
  lemma ZoneAnswers(zone: Zone, t: int)
    requires ValidZone(zone)
    ensures var p := PlatformOf(zone);
      && LocalBy(p, t) == LocalCivil(zone, t)
      && p.offset(Asked(t)) == zone.offset(PointOf(t)) && p.dst(Asked(t)) == zone.dst(PointOf(t))
  {
    hide CivilOf, IsLeap, Jan1, PointOf, PlatformYear, SameCalendar;
    PlatformYearMatches(CivilOf(t).year);
    TransplantKeeps(t, PlatformYear(CivilOf(t).year), 0);
  }

  // ... so that localtime64_r gives the zone's local time for every year.
  method LocaltimeInZone(zone: Zone, time: int64, localTm: TmStruct) returns (r: Outcome)
    requires ValidZone(zone)
    modifies localTm
    ensures r == Null <==> !(FIRST_SECOND <= time as int < END_SECOND)
    ensures r == Filled <==> LocaltimeIsDefined(time as int, zone.offset(PointOf(time as int)))
    ensures r == Filled ==> Holds(localTm.Value(), LocalCivil(zone, time as int), zone.dst(PointOf(time as int)))
  {
    PlatformIsValid(zone);
    ZoneAnswers(zone, time as int);
    hide *;
    r := Localtime64R(PlatformOf(zone), time, localTm);
  }
}
