/** The struct the time functions fill in place, and the tables they read. */
module Tm {
  import opened CInt
  import opened Calendar

  // The fields of a 'struct tm', as a value.
  datatype Fields = Fields(sec: int32, min: int32, hour: int32, mday: int32, mon: int32, year: int32,
                           wday: int32, yday: int32, isdst: int32)

  predicate YearFits(year: int) {
    FitsInt32(year - 1900)
  }

  // A broken-down time as a 'struct tm' holds it.
  function FieldsOf(c: Civil, isdst: int32): Fields
    requires ValidDate(c) && Consistent(c) && YearFits(c.year)
  {
    DayOfYearInYear(IsLeap(c.year), c.mon, c.mday);
    Fields(c.sec as int32, c.min as int32, c.hour as int32, c.mday as int32, c.mon as int32,
           (c.year - 1900) as int32, c.wday as int32, c.yday as int32, isdst)
  }

  // The struct holds this broken-down time.
  predicate Holds(f: Fields, c: Civil, isdst: int32) {
    ValidDate(c) && Consistent(c) && YearFits(c.year) && f == FieldsOf(c, isdst)
  }

  lemma HoldsYear(f: Fields, c: Civil, isdst: int32)
    requires Holds(f, c, isdst)
    ensures f.year as int + 1900 == c.year && f.mon as int == c.mon
  {
  }

  // ... and back.
  function CivilOfFields(f: Fields): Civil {
    Civil(f.year as int + 1900, f.mon as int, f.mday as int, f.hour as int, f.min as int, f.sec as int,
          f.wday as int, f.yday as int)
  }

  lemma HeldDate(f: Fields, c: Civil, isdst: int32)
    requires Holds(f, c, isdst)
    ensures CivilOfFields(f) == c
  {
  }

  class TmStruct {
    var sec: int32
    var min: int32
    var hour: int32
    var mday: int32
    var mon: int32
    var year: int32
    var wday: int32
    var yday: int32
    var isdst: int32

    constructor () {
      sec, min, hour, mday, mon, year, wday, yday, isdst := 0, 0, 0, 0, 0, 0, 0, 0, 0;
    }

    function Value(): Fields
      reads this
    {
      Fields(sec, min, hour, mday, mon, year, wday, yday, isdst)
    }

    // Struct assignment.
    method Assign(f: Fields)
      modifies this
      ensures Value() == f
    {
      sec, min, hour, mday, mon := f.sec, f.min, f.hour, f.mday, f.mon;
      year, wday, yday, isdst := f.year, f.wday, f.yday, f.isdst;
    }
  }

  const DAYS_IN_MONTH: seq<seq<int>> := [
    [31, 28, 31, 30, 31, 30, 31, 31, 30, 31, 30, 31],
    [31, 29, 31, 30, 31, 30, 31, 31, 30, 31, 30, 31]]

  const JULIAN_DAYS_BY_MONTH: seq<seq<int>> := [
    [0, 31, 59, 90, 120, 151, 181, 212, 243, 273, 304, 334],
    [0, 31, 60, 91, 121, 152, 182, 213, 244, 274, 305, 335]]

  const LENGTH_OF_YEAR: seq<int> := [365, 366]

  // The IS_LEAP macro, which takes years counted from 1900 and is 0 or 1.
  function LeapIndex(n: int): (r: int)
    ensures r == if IsLeap(n + 1900) then 1 else 0
  {
    RepairedDivision(n + 1900, 400);
    RepairedDivision(n + 1900, 100);
    RepairedDivision(n + 1900, 4);
    if TruncMod(n + 1900, 400) == 0 || (TruncMod(n + 1900, 4) == 0 && TruncMod(n + 1900, 100) != 0) then 1 else 0
  }

  // The tables say what counting says.
  lemma TablesAgree(leap: int, mon: int)
    requires 0 <= leap <= 1 && 0 <= mon <= 11
    ensures LENGTH_OF_YEAR[leap] == if leap == 1 then 366 else 365
    ensures DAYS_IN_MONTH[leap][mon] == MonthLength(leap == 1, mon)
    ensures JULIAN_DAYS_BY_MONTH[leap][mon] == MonthStart(leap == 1, mon)
    decreases mon
  {
    if mon > 0 {
      TablesAgree(leap, mon - 1);
      assert JULIAN_DAYS_BY_MONTH[leap][mon] == JULIAN_DAYS_BY_MONTH[leap][mon - 1] + DAYS_IN_MONTH[leap][mon - 1];
    }
  }
}
