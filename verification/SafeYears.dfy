/** The year the platform's own time functions are asked about in place of a year
    they cannot handle, and why its calendar is the same. */
module SafeYears {
  import opened CInt
  import opened Calendar

  const MIN_SAFE_YEAR: int := 1971
  const MAX_SAFE_YEAR: int := 2037
  const SOLAR_CYCLE_LENGTH: int := 28

  const SAFE_YEARS_HIGH: seq<int> := [
    2016, 2017, 2018, 2019, 2020, 2021, 2022, 2023, 2024, 2025, 2026, 2027, 2028, 2029,
    2030, 2031, 2032, 2033, 2034, 2035, 2036, 2037, 2010, 2011, 2012, 2013, 2014, 2015]

  const SAFE_YEARS_LOW: seq<int> := [
    1996, 1997, 1998, 1971, 1972, 1973, 1974, 1975, 1976, 1977, 1978, 1979, 1980, 1981,
    1982, 1983, 1984, 1985, 1986, 1987, 1988, 1989, 1990, 1991, 1992, 1993, 1994, 1995]

  predicate IsExceptionCentury(year: int) {
    TruncMod(year, 100) == 0 && TruncMod(year, 400) != 0
  }

  function CycleOffset(year: int): int {
    var yearDiff := if year > 2000 then year - 2001 else year - 2000;
    (TruncDiv(yearDiff, 100) - TruncDiv(yearDiff, 400)) * 16
  }

  // The position in the 28-year cycle, before it is reduced.
  function YearCycle(year: int): int {
    year + CycleOffset(year)
    - (if year < MIN_SAFE_YEAR then 8 else 0)
    + (if IsExceptionCentury(year) then 11 else 0)
    + (if IsExceptionCentury(year - 1) then 17 else 0)
  }

  function SafeYear(year: int): int {
    if MIN_SAFE_YEAR <= year <= MAX_SAFE_YEAR then year
    else
      var rem := TruncMod(YearCycle(year), SOLAR_CYCLE_LENGTH);
      var index := if rem < 0 then SOLAR_CYCLE_LENGTH + rem else rem;
      if year < MIN_SAFE_YEAR then SAFE_YEARS_LOW[index] else SAFE_YEARS_HIGH[index]
  }

  // The two years have the same calendar, and so do the days next to them.
  predicate SameCalendar(y: int, z: int) {
    && IsLeap(y) == IsLeap(z)
    && Jan1(y) % 7 == Jan1(z) % 7
    && IsLeap(y - 1) == IsLeap(z - 1)
  }

  // ---- Every year, located in its cycle, century and four-year group

  // z == 400 * cycle + 100 * century + 4 * group + rest
  datatype Place = Place(cycle: int, century: int, group: int, rest: int)

  predicate PlaceOf(z: int, p: Place) {
    && z == 400 * p.cycle + 100 * p.century + 4 * p.group + p.rest
    && 0 <= p.century <= 3 && 0 <= p.group <= 24 && 0 <= p.rest <= 3
  }

  function Locate(z: int): (p: Place)
    ensures PlaceOf(z, p)
  {
    var inCycle := z % 400;
    var inCentury := inCycle % 100;
    Place(z / 400, inCycle / 100, inCentury / 4, inCentury % 4)
  }

  lemma PlaceDivisions(z: int, p: Place)
    requires PlaceOf(z, p)
    ensures z / 4 == 100 * p.cycle + 25 * p.century + p.group && z % 4 == p.rest
    ensures z / 100 == 4 * p.cycle + p.century && z % 100 == 4 * p.group + p.rest
    ensures z / 400 == p.cycle && z % 400 == 100 * p.century + 4 * p.group + p.rest
  {
    DivisionIsUnique(z, 4, 100 * p.cycle + 25 * p.century + p.group, p.rest);
    DivisionIsUnique(z, 100, 4 * p.cycle + p.century, 4 * p.group + p.rest);
    DivisionIsUnique(z, 400, p.cycle, 100 * p.century + 4 * p.group + p.rest);
  }

  predicate IsException(p: Place) {
    p.rest == 0 && p.group == 0 && p.century != 0
  }

  lemma PlaceFacts(z: int, p: Place)
    requires PlaceOf(z, p)
    ensures IsLeap(z) == (p.rest == 0 && !IsException(p))
    ensures IsExceptionCentury(z) == IsException(p)
    ensures LeapsThrough(z) == 97 * p.cycle + 24 * p.century + p.group
  {
    PlaceDivisions(z, p);
    RepairedDivision(z, 100);
    RepairedDivision(z, 400);
  }

  function NextPlace(p: Place): Place {
    if p.rest < 3 then p.(rest := p.rest + 1)
    else if p.group < 24 then p.(group := p.group + 1, rest := 0)
    else if p.century < 3 then Place(p.cycle, p.century + 1, 0, 0)
    else Place(p.cycle + 1, 0, 0, 0)
  }

  lemma PlaceFactsNext(year: int, p: Place)
    requires PlaceOf(year - 1, p)
    ensures IsLeap(year) == (NextPlace(p).rest == 0 && !IsException(NextPlace(p)))
    ensures IsExceptionCentury(year) == IsException(NextPlace(p))
  {
    PlaceFacts(year, NextPlace(p));
  }

  // What safe_year adds to step over the years around an exception century.
  function Adjustment(p: Place): int {
    (if IsException(NextPlace(p)) then 11 else 0) + (if IsException(p) then 17 else 0)
  }

  // The offset counts the exception centuries since 2000, in both directions.
  lemma CycleOffsetAt(year: int, p: Place)
    requires PlaceOf(year - 1, p)
    requires !(MIN_SAFE_YEAR <= year <= MAX_SAFE_YEAR)
    ensures CycleOffset(year) == 16 * (3 * p.cycle + p.century - 15)
  {
    hide IsException;
    var inCentury := 4 * p.group + p.rest;
    var inCycle := 100 * p.century + inCentury;
    if year > 2000 {
      DivisionIsUnique(year - 2001, 100, 4 * p.cycle + p.century - 20, inCentury);
      DivisionIsUnique(year - 2001, 400, p.cycle - 5, inCycle);
    } else {
      assert TruncDiv(year - 2000, 100) == -((2000 - year) / 100);
      assert TruncDiv(year - 2000, 400) == -((2000 - year) / 400);
      hide TruncDiv;
      DivisionIsUnique(2000 - year, 100, 19 - 4 * p.cycle - p.century, 99 - inCentury);
      DivisionIsUnique(2000 - year, 400, 4 - p.cycle, 399 - inCycle);
    }
  }

  // ---- The table entry

  // Where the year before the safe year stands in the 28-year cycle.
  function Residue(p: Place): int {
    (12 + 4 * (p.century + p.group) + p.rest + Adjustment(p)) % SOLAR_CYCLE_LENGTH
  }

  // Both tables list a stretch of 28 years by residue.
  lemma TableEntries(i: int)
    requires 0 <= i < SOLAR_CYCLE_LENGTH
    ensures MAX_SAFE_YEAR - SOLAR_CYCLE_LENGTH < SAFE_YEARS_HIGH[i] <= MAX_SAFE_YEAR
    ensures MIN_SAFE_YEAR <= SAFE_YEARS_LOW[i] < MIN_SAFE_YEAR + SOLAR_CYCLE_LENGTH
    ensures (SAFE_YEARS_HIGH[i] - 1) % SOLAR_CYCLE_LENGTH == (i + 27) % SOLAR_CYCLE_LENGTH
    ensures (SAFE_YEARS_LOW[i] - 1) % SOLAR_CYCLE_LENGTH == (i + 7) % SOLAR_CYCLE_LENGTH
  {
    assert SAFE_YEARS_HIGH[i] == if i < 22 then 2016 + i else 1988 + i;
    assert SAFE_YEARS_LOW[i] == if i < 3 then 1996 + i else 1968 + i;
  }

  lemma YearCycleAt(year: int, p: Place)
    requires PlaceOf(year - 1, p)
    requires !(MIN_SAFE_YEAR <= year <= MAX_SAFE_YEAR)
    ensures (YearCycle(year) + if year < MIN_SAFE_YEAR then 7 else 27) % SOLAR_CYCLE_LENGTH == Residue(p)
  {
    CycleOffsetAt(year, p);
    PlaceFacts(year - 1, p);
    PlaceFactsNext(year, p);
    var core := 12 + 4 * (p.century + p.group) + p.rest + Adjustment(p);
    var low := year < MIN_SAFE_YEAR;
    assert YearCycle(year)
      == 448 * p.cycle + 116 * p.century + 4 * p.group + p.rest - 239 + Adjustment(p) - (if low then 8 else 0);
    SameRemainder(YearCycle(year) + (if low then 7 else 27), core, SOLAR_CYCLE_LENGTH,
                  16 * p.cycle + 4 * p.century - (if low then 9 else 8));
  }

  // The reduction to a table index, free of C's truncation.
  lemma SafeYearEntry(year: int, cycle: int)
    requires !(MIN_SAFE_YEAR <= year <= MAX_SAFE_YEAR)
    requires cycle == YearCycle(year)
    ensures SafeYear(year) == (if year < MIN_SAFE_YEAR then SAFE_YEARS_LOW else SAFE_YEARS_HIGH)[cycle % SOLAR_CYCLE_LENGTH]
  {
    RepairedDivision(cycle, SOLAR_CYCLE_LENGTH);
  }

  // Later years are replaced from the last 28 years the platform handles, earlier ones from the
  // first 28.
  predicate IsNearest(year: int, z: int) {
    && (year > 2037 ==> 2010 <= z <= 2037)
    && (year < 1971 ==> 1971 <= z <= 1998)
  }

  lemma SafeYearResidue(year: int, p: Place)
    requires PlaceOf(year - 1, p)
    requires !(MIN_SAFE_YEAR <= year <= MAX_SAFE_YEAR)
    ensures IsNearest(year, SafeYear(year))
    ensures (SafeYear(year) - 1) % SOLAR_CYCLE_LENGTH == Residue(p)
  {
    hide SafeYear, YearCycle, Residue;
    var cycle := YearCycle(year);
    var i := cycle % SOLAR_CYCLE_LENGTH;
    SafeYearEntry(year, cycle);
    TableEntries(i);
    YearCycleAt(year, p);
    assert i % SOLAR_CYCLE_LENGTH == i;
    ShiftedRemainder(i, cycle, if year < MIN_SAFE_YEAR then 7 else 27, SOLAR_CYCLE_LENGTH);
  }

  lemma TwoCenturies(z: int)
    requires 1900 <= z <= 2099
    ensures z / 100 == (if z < 2000 then 19 else 20) && z / 400 == (if z < 2000 then 4 else 5)
    ensures z % 100 == 0 <==> z == 1900 || z == 2000
    ensures z % 400 == 0 <==> z == 2000
  {
    DivisionIsUnique(z, 100, if z < 2000 then 19 else 20, if z < 2000 then z - 1900 else z - 2000);
    DivisionIsUnique(z, 400, if z < 2000 then 4 else 5, if z < 2000 then z - 1600 else z - 2000);
  }

  // Between two exception centuries the calendar is the Julian one.
  lemma JulianLeaps(z: int)
    requires 1901 <= z <= 2099
    ensures IsLeap(z) == (z % 4 == 0)
  {
    TwoCenturies(z);
  }

  lemma JulianEra(z: int)
    requires 1901 <= z <= 2099
    ensures Jan1(z) == 365 * (z - 1970) + (z - 1) / 4 - 492
  {
    hide Jan1;
    Jan1Closed(z);
    TwoCenturies(z - 1);
    TwoCenturies(1969);
  }

  // ... so it repeats every 28 years.
  lemma SafeCalendar(s: int, w: int)
    requires MIN_SAFE_YEAR <= s <= MAX_SAFE_YEAR && w == (s - 1) % SOLAR_CYCLE_LENGTH
    ensures IsLeap(s) == (w % 4 == 3) && IsLeap(s - 1) == (w % 4 == 0)
    ensures Jan1(s) % 7 == (w + w / 4 + 3) % 7
  {
    hide IsLeap, Jan1;
    var k := (s - 1) / SOLAR_CYCLE_LENGTH;
    DivisionIsUnique(s - 1, 4, 7 * k + w / 4, w % 4);
    DivisionIsUnique(s, 4, if w % 4 == 3 then 7 * k + w / 4 + 1 else 7 * k + w / 4, (w % 4 + 1) % 4);
    JulianLeaps(s);
    JulianLeaps(s - 1);
    SafeWeekday(s, k, w);
  }

  lemma SafeWeekday(s: int, k: int, w: int)
    requires MIN_SAFE_YEAR <= s <= MAX_SAFE_YEAR && (s - 1) / 4 == 7 * k + w / 4 && s - 1 == SOLAR_CYCLE_LENGTH * k + w
    ensures Jan1(s) % 7 == (w + w / 4 + 3) % 7
  {
    hide Jan1;
    JulianEra(s);
    SameRemainder(Jan1(s), w + w / 4 + 3, 7, 1461 * k + 52 * w - 102740);
  }

  lemma YearCalendar(year: int, p: Place)
    requires PlaceOf(year - 1, p)
    ensures Jan1(year) % 7 == (5 * (p.century + p.group) + p.rest + 4) % 7
  {
    Jan1Closed(year);
    PlaceFacts(year - 1, p);
    var k := 20871 * p.cycle + 5217 * p.century + 208 * p.group + 52 * p.rest - 102738;
    SameRemainder(Jan1(year), 5 * (p.century + p.group) + p.rest + 4, 7, k);
  }

  // The residue of the safe year, reduced to the calendar it stands for.
  lemma ResidueCalendar(p: Place)
    requires 0 <= p.century <= 3 && 0 <= p.group <= 24 && 0 <= p.rest <= 3
    ensures var w := Residue(p);
      && (w + w / 4 + 3) % 7 == (5 * (p.century + p.group) + p.rest + 4) % 7
      && (w % 4 == 0) == (p.rest == 0 && !IsException(p))
      && (w % 4 == 3) == (NextPlace(p).rest == 0 && !IsException(NextPlace(p)))
  {
    var g, f, adj := p.century + p.group, p.rest, Adjustment(p);
    var core := 12 + 4 * g + f + adj;
    var k := core / SOLAR_CYCLE_LENGTH;
    var w := Residue(p);
    assert w == core - 28 * k;
    assert adj == if IsException(p) then 17 else if IsException(NextPlace(p)) then 11 else 0;
    DivisionIsUnique(w, 4, 3 + g + (f + adj) / 4 - 7 * k, (f + adj) % 4);
    SameRemainder(w + w / 4 + 3, 5 * g + f + 4, 7, 2 - 5 * k + (adj + (f + adj) / 4) / 7);
  }

  // A safe year with the residue of a place has the leap years of that place ...
  lemma ResidueLeaps(year: int, p: Place, s: int, w: int)
    requires PlaceOf(year - 1, p) && w == Residue(p)
    requires MIN_SAFE_YEAR <= s <= MAX_SAFE_YEAR && w == (s - 1) % SOLAR_CYCLE_LENGTH
    ensures IsLeap(year) == IsLeap(s) && IsLeap(year - 1) == IsLeap(s - 1)
  {
    hide IsLeap, Jan1, Residue, IsException, NextPlace, IsExceptionCentury, LeapsThrough;
    SafeCalendar(s, w);
    PlaceFacts(year - 1, p);
    PlaceFactsNext(year, p);
    ResidueCalendar(p);
  }

  // ... and its weekdays.
  lemma ResidueWeekday(year: int, p: Place, s: int, w: int)
    requires PlaceOf(year - 1, p) && w == Residue(p)
    requires MIN_SAFE_YEAR <= s <= MAX_SAFE_YEAR && w == (s - 1) % SOLAR_CYCLE_LENGTH
    ensures Jan1(year) % 7 == Jan1(s) % 7
  {
    hide IsLeap, Jan1, Residue, IsException, NextPlace, IsExceptionCentury, LeapsThrough;
    SafeCalendar(s, w);
    YearCalendar(year, p);
    ResidueCalendar(p);
  }

  lemma ReplacedYearMatches(year: int)
    requires !(MIN_SAFE_YEAR <= year <= MAX_SAFE_YEAR)
    ensures IsNearest(year, SafeYear(year))
    ensures SameCalendar(year, SafeYear(year))
  {
    hide SafeYear, IsLeap, Jan1, Residue, IsException, NextPlace, IsExceptionCentury, LeapsThrough;
    var p := Locate(year - 1);
    SafeYearResidue(year, p);
    ResidueLeaps(year, p, SafeYear(year), Residue(p));
    ResidueWeekday(year, p, SafeYear(year), Residue(p));
  }

  // Main result: the safe year has the calendar of the year it replaces, for every year, and is
  // the year itself or one of the nearest 28.
  lemma SafeYearMatches(year: int)
    ensures MIN_SAFE_YEAR <= SafeYear(year) <= MAX_SAFE_YEAR && IsNearest(year, SafeYear(year))
    ensures MIN_SAFE_YEAR <= year <= MAX_SAFE_YEAR ==> SafeYear(year) == year
    ensures SameCalendar(year, SafeYear(year))
  {
    if !(MIN_SAFE_YEAR <= year <= MAX_SAFE_YEAR) {
      ReplacedYearMatches(year);
    }
  }

  // ... and so the neighbouring new years fall on the same weekdays.
  lemma SafeYearNeighbours(year: int)
    ensures Jan1(year - 1) % 7 == Jan1(SafeYear(year) - 1) % 7
    ensures Jan1(year + 1) % 7 == Jan1(SafeYear(year) + 1) % 7
  {
    hide SafeYear, IsLeap;
    SafeYearMatches(year);
    var s := SafeYear(year);
    ShiftedRemainder(Jan1(year), Jan1(s), -YearLength(year - 1), 7);
    ShiftedRemainder(Jan1(year), Jan1(s), YearLength(year), 7);
    NextJan1(year - 1);
    NextJan1(s - 1);
    NextJan1(year);
    NextJan1(s);
  }

  // ---- Which of the matching years it is

  // A century's first year that is not a leap year, in plain terms.
  predicate IsCommonCentury(year: int) {
    year % 100 == 0 && year % 400 != 0
  }

  // Where the safe year stands between leap years: where the year does, but a common century
  // year stands like a year before a leap year, and the next one like the year before that.
  function Phase(year: int): int {
    (year + if IsCommonCentury(year) then 3 else if IsCommonCentury(year - 1) then 1 else 0) % 4
  }

  lemma PhaseOfPlace(year: int, p: Place)
    requires PlaceOf(year - 1, p)
    ensures Phase(year) == (p.rest + Adjustment(p) + 1) % 4
  {
    PlaceDivisions(year - 1, p);
    PlaceDivisions(year, NextPlace(p));
  }

  lemma ResiduePhase(p: Place)
    ensures Residue(p) % 4 == (p.rest + Adjustment(p)) % 4
  {
    var rest := p.rest + Adjustment(p);
    var core := 12 + 4 * (p.century + p.group) + rest;
    hide Adjustment;
    var k := core / SOLAR_CYCLE_LENGTH;
    assert core % SOLAR_CYCLE_LENGTH == rest + 4 * (3 + p.century + p.group - 7 * k);
    SameRemainder(core % SOLAR_CYCLE_LENGTH, rest, 4, 3 + p.century + p.group - 7 * k);
  }

  lemma SafeYearPhase(year: int)
    requires !(MIN_SAFE_YEAR <= year <= MAX_SAFE_YEAR)
    ensures SafeYear(year) % 4 == Phase(year)
  {
    var p := Locate(year - 1);
    SafeYearResidue(year, p);
    PhaseOfPlace(year, p);
    ResiduePhase(p);
    hide *;
    NextPhase(SafeYear(year) - 1, p.rest + Adjustment(p));
  }

  lemma NextPhase(z: int, r: int)
    requires z % SOLAR_CYCLE_LENGTH % 4 == r % 4
    ensures (z + 1) % 4 == (r + 1) % 4
  {
    var w := z % SOLAR_CYCLE_LENGTH;
    SameRemainder(z, w, 4, 7 * (z / SOLAR_CYCLE_LENGTH));
    ShiftedRemainder(z, r, 1, 4);
  }

  // Weekday and phase fix the place in the 28-year cycle.
  lemma PlaceInCycle(w: int, v: int)
    requires 0 <= w < 28 && 0 <= v < 28
    requires w % 4 == v % 4 && (w + w / 4 + 3) % 7 == (v + v / 4 + 3) % 7
    ensures w == v
  {
    var d := w / 4 - v / 4;
    var m := (w + w / 4 + 3) / 7 - (v + v / 4 + 3) / 7;
    assert 5 * d == 7 * m;
    SevenDivides(d, m);
  }

  lemma SevenDivides(d: int, m: int)
    requires 5 * d == 7 * m && -7 < d < 7
    ensures d == 0
  {
    assert d == 7 * (3 * m - 2 * d);
  }

  lemma SameSafeYear(y: int, z: int)
    requires MIN_SAFE_YEAR <= y <= MAX_SAFE_YEAR && MIN_SAFE_YEAR <= z <= MAX_SAFE_YEAR
    requires Jan1(y) % 7 == Jan1(z) % 7 && y % 4 == z % 4
    ensures (y - 1) % SOLAR_CYCLE_LENGTH == (z - 1) % SOLAR_CYCLE_LENGTH
  {
    hide Jan1, IsLeap;
    var w, v := (y - 1) % SOLAR_CYCLE_LENGTH, (z - 1) % SOLAR_CYCLE_LENGTH;
    SafeCalendar(y, w);
    SafeCalendar(z, v);
    ShiftedRemainder(y, z, -1, 4);
    SameRemainder(y - 1, w, 4, 7 * ((y - 1) / SOLAR_CYCLE_LENGTH));
    SameRemainder(z - 1, v, 4, 7 * ((z - 1) / SOLAR_CYCLE_LENGTH));
    PlaceInCycle(w, v);
  }

  // Main result: the safe year is the one year among the nearest 28 that has the calendar and
  // the phase.
  lemma SafeYearIs(year: int, z: int)
    requires !(MIN_SAFE_YEAR <= year <= MAX_SAFE_YEAR)
    ensures z == SafeYear(year) <==> IsNearest(year, z) && SameCalendar(year, z) && z % 4 == Phase(year)
  {
    hide SafeYear, Phase, Jan1, IsLeap;
    SafeYearMatches(year);
    SafeYearPhase(year);
    var s := SafeYear(year);
    if IsNearest(year, z) && SameCalendar(year, z) && z % 4 == Phase(year) {
      SameSafeYear(z, s);
      assert z - 1 - SOLAR_CYCLE_LENGTH * ((z - 1) / SOLAR_CYCLE_LENGTH)
        == s - 1 - SOLAR_CYCLE_LENGTH * ((s - 1) / SOLAR_CYCLE_LENGTH);
    }
  }

  // It is not always the latest year with the calendar: 2066 is replaced by 2010, not by 2027.
  lemma NotTheLatest()
    ensures SafeYear(2066) == 2010 && SameCalendar(2066, 2027)
  {
    ThreeNewYears();
    hide SafeYear, Jan1;
    SafeYearIs(2066, 2010);
  }

  lemma ThreeNewYears()
    ensures Jan1(2066) == 35064 && Jan1(2010) == 14610 && Jan1(2027) == 20819
  {
    hide Jan1;
    Jan1Closed(2066);
    Jan1Closed(2010);
    Jan1Closed(2027);
  }
}
