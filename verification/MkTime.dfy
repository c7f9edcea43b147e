/** Local dates back to seconds, for every year an 'int' can hold. */
module MkTime {
  import opened CInt
  import opened Calendar
  import opened SafeYears
  import opened Tm
  import opened GmTime
  import opened LocalTime

  // What seconds_between_years returns. Going down it adds up the years after the left one
  // through the right one, instead of the left one up to the right one.
  function BetweenYears(leftYear: int, rightYear: int): int {
    if leftYear > rightYear then (Jan1(leftYear) - Jan1(rightYear)) * SECONDS_PER_DAY
    else (Jan1(leftYear + 1) - Jan1(rightYear + 1)) * SECONDS_PER_DAY
  }

  // It is the time between the two new years exactly when going up or between years of
  // one length.
  lemma BetweenYearsIsDifference(leftYear: int, rightYear: int)
    ensures BetweenYears(leftYear, rightYear) == YearStart(leftYear) - YearStart(rightYear)
      <==> leftYear > rightYear || IsLeap(leftYear) == IsLeap(rightYear)
  {
    NextJan1(leftYear);
    NextJan1(rightYear);
  }

  // For 1970 and 1972 it is a day off.
  lemma BetweenYearsCanFail()
    ensures BetweenYears(1970, 1972) == YearStart(1970) - YearStart(1972) - SECONDS_PER_DAY
  {
    NextJan1(1970);
    NextJan1(1972);
  }

  // The years summed by the loop, whose left end two reductions may have moved.
  method SecondsBetweenYears(leftYear: int64, rightYear: int64) returns (seconds: int64, ghost steps: int)
    requires INT32_MIN + 1900 <= leftYear as int <= INT32_MAX && 1600 <= rightYear <= 2400
    ensures seconds as int == BetweenYears(leftYear as int, rightYear as int)
    ensures -400_000_000_000_000_000 <= seconds as int <= 400_000_000_000_000_000
    ensures leftYear > 2400 ==> steps < 2800 - rightYear as int
    ensures leftYear <= 1200 && leftYear < rightYear ==> steps > rightYear as int - leftYear as int
  {
    hide IsLeap, Jan1, TruncDiv, TruncMod;
    var increment: int64 := if leftYear > rightYear then 1 else -1;
    var left, right;
    left, seconds := ReduceLeft(leftYear);
    right := rightYear;
    ghost var reduced := seconds;
    while left != right
      invariant if increment == 1 then rightYear <= right <= left else left <= right <= rightYear
      invariant increment == 1 ==> seconds as int == reduced as int + (Jan1(right as int) - Jan1(rightYear as int)) * SECONDS_PER_DAY
      invariant increment == -1 ==> seconds as int == reduced as int + (Jan1(rightYear as int + 1) - Jan1(right as int + 1)) * SECONDS_PER_DAY
      invariant 0 <= seconds as int - reduced as int <= 40_000_000 * (right as int - rightYear as int) * increment as int
      decreases (left as int - right as int) * increment as int
    {
      NextJan1(right as int);
      seconds := seconds + LENGTH_OF_YEAR[LeapIndex(right as int - 1900)] as int64 * 60 * 60 * 24;
      right := right + increment;
    }
    steps := (left as int - rightYear as int) * increment as int;
    seconds := seconds * increment;
  }

  // Above 2400 whole cycles are taken off; below 1600 they are put on, so that the loop
  // runs the same distance again, and the sum corrected by them either way.
  method ReduceLeft(leftYear: int64) returns (left: int64, seconds: int64)
    requires INT32_MIN + 1900 <= leftYear as int <= INT32_MAX
    ensures 2400 < leftYear ==> 2400 <= left < 2800
    ensures 2400 < leftYear ==> YearStart(leftYear as int) == YearStart(left as int) + seconds as int
    ensures leftYear < 1600 ==> 2 * leftYear - 2000 < left <= leftYear
    ensures leftYear < 1600 ==> YearStart(leftYear as int + 1) == YearStart(left as int + 1) - seconds as int
    ensures leftYear <= 1200 ==> left < leftYear
    ensures 1600 <= leftYear <= 2400 ==> left == leftYear && seconds == 0
    ensures -100_000_000_000_000_000 <= seconds as int <= 100_000_000_000_000_000
  {
    hide IsLeap, Jan1;
    left, seconds := leftYear, 0;
    if leftYear > 2400 {
      var cycles := TruncDiv(leftYear as int - 2400, 400) as int32;
      left := left - (cycles * 400) as int64;
      seconds := seconds + cycles as int64 * SECONDS_PER_CYCLE as int64;
      Jan1Cycle(left as int, cycles as int);
    } else if leftYear < 1600 {
      var cycles := TruncDiv(leftYear as int - 1600, 400) as int32;
      left := left + (cycles * 400) as int64;
      seconds := seconds + cycles as int64 * SECONDS_PER_CYCLE as int64;
      Jan1Cycle(leftYear as int + 1, cycles as int);
    }
  }

  // The calendar point of a local date.
  function PointOfDate(c: Civil): CalendarPoint
    requires 0 <= c.mon <= 11
  {
    CalendarPoint(IsLeap(c.year), Jan1(c.year) % 7, MonthStart(IsLeap(c.year), c.mon) + c.mday - 1,
                  c.hour * 3600 + c.min * 60 + c.sec)
  }

  // It is the point of the moment that the date names in UTC.
  lemma PointOfDateIs(c: Civil)
    requires ValidDate(c)
    ensures PointOfDate(c) == PointOf(SecondsOf(c))
  {
    DayOfYearInYear(IsLeap(c.year), c.mon, c.mday);
    ClockRoundTrip(SecondsOf(c), DayOf(c.year, c.mon, c.mday), c.hour, c.min, c.sec);
    CivilOfDay(SecondsOf(c), c.year, MonthStart(IsLeap(c.year), c.mon) + c.mday - 1);
    SecondFromClock(SecondsOf(c));
    CivilParts(SecondsOf(c));
    hide CivilOf, Jan1, IsLeap, MonthStart;
  }

  // The moment a local date names in the zone.
  function LocalSeconds(zone: Zone, c: Civil): int
    requires 0 <= c.mon <= 11
  {
    SecondsOf(c) - zone.back(PointOfDate(c))
  }

  // What the platform's mktime subtracts from a local date it can handle, by the daylight flag.
  type Back = (Civil, int32) -> int

  ghost predicate ValidBack(back: Back) {
    forall c, isdst :: ValidDate(c) && MIN_SAFE_YEAR <= c.year <= MAX_SAFE_YEAR ==> -SECONDS_PER_DAY < back(c, isdst) < SECONDS_PER_DAY
  }

  // The date mktime64 asks the platform about, which for a safe year is the date itself.
  function AskedDate(c: Civil): Civil {
    c.(year := SafeYear(c.year))
  }

  // Outside the safe years it is the same date of the nearest year with the calendar and phase.
  lemma AskedDateYear(c: Civil)
    ensures AskedDate(c) == c.(year := SafeYear(c.year))
    ensures MIN_SAFE_YEAR <= c.year <= MAX_SAFE_YEAR ==> AskedDate(c) == c
    ensures !(MIN_SAFE_YEAR <= c.year <= MAX_SAFE_YEAR) ==>
      var z := AskedDate(c).year; IsNearest(c.year, z) && SameCalendar(c.year, z) && z % 4 == Phase(c.year)
  {
    hide SafeYear, Jan1, IsLeap, Phase;
    SafeYearMatches(c.year);
    if !(MIN_SAFE_YEAR <= c.year <= MAX_SAFE_YEAR) { SafeYearIs(c.year, SafeYear(c.year)); }
  }

  // The platform's mktime, asked only about safe years. It normalizes the struct, which for
  // an existing date means filling in the weekday and the day of the year.
  method PlatformMktime(back: Back, date: TmStruct) returns (time: int64)
    requires ValidBack(back) && ValidDate(CivilOfFields(date.Value()))
    requires MIN_SAFE_YEAR <= date.year as int + 1900 <= MAX_SAFE_YEAR
    modifies date
    ensures var c := CivilOfFields(old(date.Value())); time as int == SecondsOf(c) - back(c, old(date.isdst))
    ensures -SECONDS_PER_DAY <= time as int <= INT32_MAX
    ensures date.year == old(date.year)
  {
    ghost var c := CivilOfFields(date.Value());
    SafeDate(c);
    hide IsLeap, Jan1;
    var leap := LeapIndex(date.year as int);
    TablesAgree(leap, date.mon as int);
    time := (SecondsOf(CivilOfFields(date.Value())) - back(CivilOfFields(date.Value()), date.isdst)) as int64;
    date.yday := JULIAN_DAYS_BY_MONTH[leap][date.mon] as int32 + date.mday - 1;
    date.wday := ((DayOf(date.year as int + 1900, date.mon as int, date.mday as int) + 4) % 7) as int32;
  }

  lemma SafeDate(c: Civil)
    requires ValidDate(c) && MIN_SAFE_YEAR <= c.year <= MAX_SAFE_YEAR
    ensures 0 <= SecondsOf(c) <= INT32_MAX - SECONDS_PER_DAY
  {
    DayOfYearInYear(IsLeap(c.year), c.mon, c.mday);
    NextJan1(c.year);
    hide IsLeap, Jan1;
    SafeNewYears();
    Jan1AtMost(1970, c.year);
    Jan1AtMost(c.year + 1, 2038);
  }

  // Moving a date to a year with the same calendar moves the moment by the new years' distance,
  // and leaves what a zone depends on.
  lemma MovedDate(c: Civil, toYear: int)
    requires ValidDate(c) && SameCalendar(c.year, toYear)
    ensures ValidDate(c.(year := toYear))
    ensures SecondsOf(c) == SecondsOf(c.(year := toYear)) + YearStart(c.year) - YearStart(toYear)
    ensures PointOfDate(c) == PointOfDate(c.(year := toYear))
  {
    hide IsLeap, Jan1, MonthStart;
  }

  lemma SafeDateAnswer(f: Fields)
    requires ValidDate(CivilOfFields(f))
    ensures var c := CivilOfFields(f);
      var toYear := SafeYear(c.year);
      && MIN_SAFE_YEAR <= toYear <= MAX_SAFE_YEAR
      && CivilOfFields(f.(year := (toYear - 1900) as int32)) == AskedDate(c)
      && ValidDate(AskedDate(c)) && PointOfDate(AskedDate(c)) == PointOfDate(c)
      && SecondsOf(c) == SecondsOf(AskedDate(c)) + BetweenYears(c.year, toYear)
  {
    var c := CivilOfFields(f);
    SafeYearMatches(c.year);
    MovedDate(c, SafeYear(c.year));
    BetweenYearsIsDifference(c.year, SafeYear(c.year));
    hide ValidDate, SecondsOf, PointOfDate, SafeYear, IsLeap, Jan1;
  }

  // The path for a year the platform cannot take.
  method MktimeInSafeYear(back: Back, inputDate: TmStruct, safeDate: TmStruct, year: int64) returns (time: int64)
    requires ValidBack(back) && ValidDate(CivilOfFields(inputDate.Value())) && safeDate != inputDate
    requires year as int == inputDate.year as int + 1900 <= INT32_MAX && !(MIN_SAFE_YEAR <= year as int <= MAX_SAFE_YEAR)
    modifies safeDate
    ensures var c := CivilOfFields(inputDate.Value()); time as int == SecondsOf(c) - back(AskedDate(c), inputDate.isdst)
  {
    SafeDateAnswer(inputDate.Value());
    hide ValidDate, SecondsOf, PointOfDate, SafeYear, IsLeap, Jan1, ValidBack, BetweenYears, AskedDate;
    safeDate.Assign(inputDate.Value().(year := (SafeYear(year as int) - 1900) as int32));
    time := PlatformMktime(back, safeDate);
    ghost var steps: int;
    var between;
    between, steps := SecondsBetweenYears(year, (safeDate.year as int + 1900) as int64);
    time := time + between;
  }

  // Main result: mktime64 extends the platform's mktime to every year, as the calendar demands.
  method Mktime64(back: Back, inputDate: TmStruct) returns (r: Outcome, time: int64)
    requires ValidBack(back) && ValidDate(CivilOfFields(inputDate.Value()))
    ensures r != Null
    ensures r == Filled <==> inputDate.year as int + 1900 <= INT32_MAX
    ensures var c := CivilOfFields(inputDate.Value()); r == Filled ==> time as int == SecondsOf(c) - back(AskedDate(c), inputDate.isdst)
  {
    if inputDate.year as int + 1900 > INT32_MAX { return IntOverflow, 0; }
    r := Filled;
    var year := (inputDate.year as int + 1900) as int64;
    var safeDate := new TmStruct();
    if MIN_SAFE_YEAR <= year as int <= MAX_SAFE_YEAR {
      safeDate.Assign(inputDate.Value());
      time := PlatformMktime(back, safeDate);
      return;
    }
    time := MktimeInSafeYear(back, inputDate, safeDate, year);
  }

  // ---- A platform whose zone does not change

  function BackOf(zone: Zone): Back {
    (c: Civil, isdst: int32) => if 0 <= c.mon <= 11 then zone.back(PointOfDate(c)) else 0
  }

  lemma BackIsValid(zone: Zone)
    requires ValidZone(zone)
    ensures ValidBack(BackOf(zone))
  {
    hide ValidDate, PointOfDate;
    forall c: Civil, isdst: int32 ensures -SECONDS_PER_DAY < BackOf(zone)(c, isdst) < SECONDS_PER_DAY {
      if 0 <= c.mon <= 11 { assert BackOf(zone)(c, isdst) == zone.back(PointOfDate(c)); }
    }
  }

  // Such a zone subtracts as much from the date asked about as from the date itself.
  lemma BackAnswers(zone: Zone, f: Fields)
    requires ValidDate(CivilOfFields(f))
    ensures var c := CivilOfFields(f); SecondsOf(c) - BackOf(zone)(AskedDate(c), f.isdst) == LocalSeconds(zone, c)
  {
    SafeDateAnswer(f);
    hide SecondsOf, PointOfDate, SafeYear, IsLeap, Jan1, BetweenYears;
  }

  // ... so that mktime64 gives the moment the date names in the zone, for every year.
  method MktimeInZone(zone: Zone, inputDate: TmStruct) returns (r: Outcome, time: int64)
    requires ValidZone(zone) && ValidDate(CivilOfFields(inputDate.Value()))
    ensures r != Null
    ensures r == Filled <==> inputDate.year as int + 1900 <= INT32_MAX
    ensures r == Filled ==> time as int == LocalSeconds(zone, CivilOfFields(inputDate.Value()))
  {
    BackIsValid(zone);
    BackAnswers(zone, inputDate.Value());
    hide ValidDate, SecondsOf, LocalSeconds, ValidBack, ValidZone, AskedDate, BackOf;
    r, time := Mktime64(BackOf(zone), inputDate);
  }

  // With the platform on UTC, mktime64 is timegm64.
  lemma MktimeIsTimegm(c: Civil)
    requires ValidDate(c)
    ensures ValidZone(FixedZone(0)) && LocalSeconds(FixedZone(0), c) == SecondsOf(c)
  {
  }

  // ... as calling both shows, for any existing date whose year can be added to.
  method MktimeAgreesWithTimegm(date: TmStruct) returns (r: Outcome, time: int64, seconds: int64)
    requires ValidDate(CivilOfFields(date.Value()))
    ensures r == Filled <==> CheckIsDefined(date.year as int + 1900)
    ensures r == Filled ==> time == seconds
  {
    DateScales(date.Value());
    MktimeIsTimegm(CivilOfFields(date.Value()));
    hide ValidDate, LocalSeconds, SecondsOf, ClockScales, ValidZone;
    seconds := Timegm64(date);
    r, time := MktimeInZone(FixedZone(0), date);
  }

  // In a zone with a fixed offset, mktime64 undoes localtime64_r.
  lemma MktimeUndoesLocaltime(offset: int, t: int)
    requires -SECONDS_PER_DAY < offset < SECONDS_PER_DAY
    ensures var zone := FixedZone(offset);
      && ValidZone(zone) && ValidDate(LocalCivil(zone, t))
      && LocalCivil(zone, t) == CivilOf(t + offset)
      && LocalSeconds(zone, LocalCivil(zone, t)) == t
  {
    CivilRoundTrip(t + offset);
    hide CivilOf, SecondsOf;
  }

  // ... as calling both shows.
  method LocalTimeComesBack(offset: int, time: int64) returns (r: Outcome, back: int64)
    requires -SECONDS_PER_DAY < offset < SECONDS_PER_DAY
    ensures r == Filled <==> FIRST_SECOND <= time as int < CHECK_END && FIRST_SECOND <= time as int + offset < CHECK_END
    ensures r == Filled ==> back == time
  {
    back := 0;
    var zone := FixedZone(offset);
    var localTm := new TmStruct();
    MktimeUndoesLocaltime(offset, time as int);
    TimeBounds(time as int + offset);
    assert zone.offset(PointOf(time as int)) == offset;
    hide CivilOf, LocalCivil, PointOf, LocalSeconds, ValidZone, Holds;
    r := LocaltimeInZone(zone, time, localTm);
    if r != Filled { return; }
    HeldDate(localTm.Value(), LocalCivil(zone, time as int), 0);
    r, back := MktimeInZone(zone, localTm);
  }

  // ---- Both conversions together, in any zone

  lemma SamePreviousYear(y: int, z: int)
    requires SameCalendar(y, z)
    ensures IsLeap(y - 1) == IsLeap(z - 1) && Jan1(y - 1) % 7 == Jan1(z - 1) % 7
    ensures Jan1(y) - Jan1(y - 1) == Jan1(z) - Jan1(z - 1)
  {
    NextJan1(y - 1);
    NextJan1(z - 1);
    ShiftedRemainder(Jan1(y), Jan1(z), -YearLength(y - 1), 7);
  }

  // A local date in a year or the one before it, moved with the year.
  lemma MovedLocalDate(zone: Zone, l: Civil, y: int, z: int)
    requires ValidDate(l) && SameCalendar(y, z) && (l.year == y || l.year == y - 1)
    ensures LocalSeconds(zone, l) - LocalSeconds(zone, l.(year := l.year - y + z)) == YearStart(y) - YearStart(z)
  {
    SamePreviousYear(y, z);
    hide IsLeap, Jan1, MonthStart;
    assert PointOfDate(l) == PointOfDate(l.(year := l.year - y + z));
  }

  // The zone sees the same point in a year or the one before it.
  lemma MovedPoint(t: int, u: int, y: int, z: int)
    requires SameCalendar(y, z) && (CivilOf(t).year == y || CivilOf(t).year == y - 1)
    requires CivilOf(u) == CivilOf(t).(year := CivilOf(t).year - y + z)
    requires t % SECONDS_PER_DAY == u % SECONDS_PER_DAY
    ensures PointOf(t) == PointOf(u)
  {
    SamePreviousYear(y, z);
    hide IsLeap, Jan1, CivilOf;
  }

  // The later of the UTC and the local year, by whose safe year the moment is moved.
  function LaterYear(t: int, offset: int): int {
    if CivilOf(t + offset).year > CivilOf(t).year then CivilOf(t + offset).year else CivilOf(t).year
  }

  // Both readings lie in that year or the one before it.
  lemma LaterYearIsNear(t: int, offset: int)
    requires -SECONDS_PER_DAY < offset < SECONDS_PER_DAY
    ensures var y := LaterYear(t, offset);
      var x := t - YearStart(y);
      && (CivilOf(t).year == y || CivilOf(t).year == y - 1)
      && (CivilOf(t + offset).year == y || CivilOf(t + offset).year == y - 1)
      && -SECONDS_PER_DAY <= x < YearLength(y) * SECONDS_PER_DAY
      && -SECONDS_PER_DAY <= x + offset < YearLength(y) * SECONDS_PER_DAY
  {
    var y := LaterYear(t, offset);
    YearFollowsMonth(t, offset);
    hide CivilOf, IsLeap, Jan1;
    NearYear(t, y);
    NearYear(t + offset, y);
  }

  // The moment moved to the later year's safe year reads the same, and the zone sees the same point.
  lemma LaterYearTransplant(t: int, offset: int) returns (u: int)
    requires -SECONDS_PER_DAY < offset < SECONDS_PER_DAY
    ensures 0 <= u <= INT32_MAX - SECONDS_PER_DAY && PointOf(u) == PointOf(t)
    ensures var y := LaterYear(t, offset);
      var l := CivilOf(t + offset);
      && CivilOf(u + offset) == l.(year := l.year - y + SafeYear(y))
      && u - t == YearStart(SafeYear(y)) - YearStart(y)
  {
    hide CivilOf, IsLeap, Jan1, SafeYear, PointOf, LaterYear, YearStart, SameCalendar;
    var y := LaterYear(t, offset);
    var z := SafeYear(y);
    var x := t - YearStart(y);
    u := YearStart(z) + x;
    SafeYearMatches(y);
    LaterYearIsNear(t, offset);
    SafeMoments(y, z, x);
    assert YearStart(y) + x == t && YearStart(y) + (x + offset) == t + offset;
    assert YearStart(z) + (x + offset) == u + offset;
    SameReading(y, z, x);
    SameReading(y, z, x + offset);
    SameSecondOfDay(y, z, x);
    MovedPoint(t, u, y, z);
  }

  // Main result: at every moment mktime64 comes as close to undoing localtime64_r as the
  // platform's own pair does at some moment it can handle, no closer and no further off.
  lemma RoundTripTransfers(zone: Zone, t: int) returns (u: int)
    requires ValidZone(zone)
    ensures 0 <= u <= INT32_MAX - SECONDS_PER_DAY
    ensures ValidDate(LocalCivil(zone, t)) && ValidDate(LocalCivil(zone, u))
    ensures LocalSeconds(zone, LocalCivil(zone, t)) - t == LocalSeconds(zone, LocalCivil(zone, u)) - u
  {
    var offset := zone.offset(PointOf(t));
    hide CivilOf, IsLeap, Jan1, SafeYear, PointOf, LocalSeconds, LaterYear, YearStart, ValidDate, Consistent, SameCalendar;
    var y := LaterYear(t, offset);
    u := LaterYearTransplant(t, offset);
    SafeYearMatches(y);
    LaterYearIsNear(t, offset);
    CivilOfIsValid(t + offset);
    CivilOfIsValid(u + offset);
    MovedLocalDate(zone, CivilOf(t + offset), y, SafeYear(y));
  }

  lemma SameSecondOfDay(y: int, z: int, x: int)
    ensures (YearStart(y) + x) % SECONDS_PER_DAY == (YearStart(z) + x) % SECONDS_PER_DAY
  {
    SameRemainder(YearStart(y) + x, YearStart(z) + x, SECONDS_PER_DAY, Jan1(y) - Jan1(z));
  }

  // A moment in a year, or in the one before it at most a day back.
  lemma NearYear(t: int, y: int)
    requires CivilOf(t).year == y || CivilOf(t).year == y - 1
    ensures t - YearStart(y) < YearLength(y) * SECONDS_PER_DAY
    ensures CivilOf(t).year == y ==> t >= YearStart(y)
    ensures CivilOf(t).year == y - 1 ==> t < YearStart(y)
  {
    PositionInYear(t);
    NextJan1(y - 1);
  }

  lemma SafeMoments(y: int, z: int, x: int)
    requires MIN_SAFE_YEAR <= z <= MAX_SAFE_YEAR && SameCalendar(y, z)
    requires -SECONDS_PER_DAY <= x < YearLength(y) * SECONDS_PER_DAY
    ensures 0 <= YearStart(z) + x <= INT32_MAX - SECONDS_PER_DAY
  {
    NextJan1(z);
    hide IsLeap, Jan1;
    SafeNewYears();
    Jan1Grows(1970, z);
    Jan1AtMost(z + 1, 2038);
  }
}
