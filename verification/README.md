# Shashlik in Dafny: calendar, archive index, text traversal, slots and buffers

A model of the algorithmic parts of Shashlik's native dependencies, with proofs that
they compute what they are for. Verify with `dafny verify dfyconfig.toml`.

**The 64-bit calendar** (`time64.c`). `Calendar.dfy` defines the proleptic Gregorian
calendar by counting one year and one month at a time; everything else must agree with it.
`GmTime.dfy` models `gmtime64_r` and `timegm64` with their C integer widths and truncating
division, `SafeYears.dfy` the choice of a year the platform can handle, `LocalTime.dfy` and
`MkTime.dfy` the conversions that ask the platform about that year. The platform is
a parameter: for each moment it can handle, any offset of less than a day and any daylight flag.
What it says about a time of its own years is so kept as it is; for the others the results say
which moment it is asked about. A zone is a platform whose answers may depend on the whole
calendar position of a moment (leap year, weekday of January 1, day of the year, second of
the day) but not on which year it is; there the local time is the zone's for every year.
A fixed offset and UTC are instances.
Signed `int` overflow is an outcome of its own, `IntOverflow`, because C promises nothing
after it; the asserts of the source are taken as compiled in.

**The archive index** (`zip_archive.cc`, `entry_name_utils-inl.h`). A backward scan finds
the end-of-central-directory record, a parser checks the directory's records and enters
their names in a linear-probing table, and lookups, iterations and extraction use it. A
file is a byte sequence. `ZipFormat.dfy` says byte by byte what an archive is (section 4.3 of
APPNOTE.TXT), and `ZipWritten.dfy` that an archive written in that form is opened and its entries
are found, each with its own data. Bytes after the mapped directory, at which the parser looks before
it checks its bounds, are arbitrary. The mapping itself, short reads, the decompressor and
the step of the checksum are parameters or nondeterministic.

**UTF-16 traversal** (`utrie.h`). Stepping forward and backward over any sequence of code
units, with the value of each code point from a folded two-stage table: the one its tables lay out
for that code point. The surrogate tests
follow section 3.9 of the Unicode Standard (utf16.h is not part of this model).

**Framebuffer slots** (`gralloc.cpp`, `framebuffer.cpp`) and **buffer ownership**
(`cmemory.h`): a bit mask that must stay the set of live handles, and objects whose heap
blocks must be freed or handed over exactly once. The width of `unsigned long`, `size_t` and
pointers is a parameter of 32 or 64 bits in the former (`Words.dfy`); the build sets it to 32
(`CMakeLists.txt:110`). A shift or a signed difference that C leaves undefined is an outcome
of its own, `Undefined`.

## Where the source and its comments part

The model follows the code.

- `check_tm` and `localtime64_r` add 1900 to an `int` year, and `mktime64` does too: for the
  last 1900 years an `int` holds, that overflows. The main results say from which second on.
- `localtime64_r` ends with a correction for a 366th day in a year without one, explained
  by a cycle position `safe_year` cannot match. It matches all of them
  (`SafeYears.SafeYearMatches`), and the correction never changes anything.
- `safe_year` is said to return the latest year that matches. It keeps the position in the
  28-year cycle as well as the calendar, so for 2066 it returns 2010, though 2027 matches and is
  later (`SafeYears.NotTheLatest`). Which year it returns is `SafeYears.SafeYearIs`.
- `seconds_between_years` means to skip whole cycles below the year 1600 but moves the year
  further away. The result is right; the loop is longer, not shorter.
- Entry names are said to be valid UTF-8. The scan accepts the sequences of RFC 2279 of any
  length, shortest or not; `EntryName.AcceptedText` says which names are encodings.
- `mod_time` is said to hold the time and the date; only the time is stored.
- The directory's extent is checked in 32 bits (`EndOfDirectory.ExtentIsInside`).
- `orphanOrClone` is said to report the returned array's capacity; for an owned block it
  reports the length asked for.
- A failed framebuffer mapping leaves the framebuffer set, so the next call succeeds and
  hands out addresses counted from 0. A driver that reports no memory is answered with
  whatever error was left behind, and if there was none, with `-ENOMEM`.
- A handle's offset is an `int`, while the mapping may be as large as 4 GiB
  (`Framebuffer.Module.OffsetIsKept`).
- The mask works for up to 32 buffers only, and for fewer than a word has bits: in the 32-bit
  build the first allocation with 32 buffers already shifts too far
  (`SlotMask.MaskFollowsUpTo32`).
- In the 32-bit build an address in the upper half of the address space is kept in 64 bits with
  its sign extended. If the mapping starts in the lower half, releasing such a slot computes
  another index (`Framebuffer.SlotCanBeLost`), unless handing it out has overflowed already.
  Posting it cuts the distance back to a word and is right.
- `aliasInstead` does not mind being given the array's own block, and then leaves a freed block
  in use (`Ownership.FreedBlockInUse`).
- Inflating an entry succeeds when as much input as declared was read, even if the stream ended
  before all of it was used (`Extraction.InflateEntryToWriter`).
- An iteration with a prefix also visits names shorter than the prefix that the bytes after
  them complete (`ZipIteration.MatchesAreNames`).

## Model

| member | source | states |
|---|---|---|
| Calendar.CivilRoundTrip | src/deps/stripped_bionic/time64.c:521-645 | walking years and months from 1970 to any second gives an existing date that names that second |
| Calendar.DateRoundTrip | src/deps/stripped_bionic/time64.c:203-248 | every existing date, with the weekday and day of year it implies, is what the walk gives for the second it names |
| Calendar.Jan1Closed | src/deps/stripped_bionic/time64.c:100-105 | counting one year at a time comes to 365 days a year plus the Gregorian leap days, in both directions |
| Calendar.Jan1Cycle | src/deps/stripped_bionic/time64.c:103-104 | 400 years are 146097 days from any year, and keep the leap status |
| CInt.RepairedDivision | src/deps/stripped_bionic/time64.c:156 | a truncating division whose negative remainder is wrapped and borrowed from the quotient is division rounding down |
| CInt.WrapKeepsLowBits | src/libs/gralloc-shashlik/gralloc_priv.h:80-85 | cutting a number to an int keeps it modulo 2^32 |
| Tm.LeapIndex | src/deps/stripped_bionic/time64.c:155 | the leap macro, on truncating remainders, is the Gregorian rule for negative years too |
| Tm.TablesAgree | src/deps/stripped_bionic/time64.c:81-100 | the month and year tables are what counting days gives |
| GmTime.SplitClock | src/deps/stripped_bionic/time64.c:554-564 | for every 64-bit time the chain of divisions and carries gives the day and second of day rounded down |
| GmTime.LocateForward | src/deps/stripped_bionic/time64.c:576-597 | cycle reduction and the loops find the one month and day; the year loop runs at most 400 times; nothing overflows |
| GmTime.MonthForward | src/deps/stripped_bionic/time64.c:592-597 | the loop over months finds the month a day of the year lies in |
| GmTime.LocateBackward | src/deps/stripped_bionic/time64.c:598-623 | the same for days before 1970, through the branch that overshoots by a cycle; the year loop runs fewer than 800 times |
| GmTime.MonthBackward | src/deps/stripped_bionic/time64.c:615-622 | the loop from December finds the month of a day counted from the end of the year |
| GmTime.WalkIsBounded | src/deps/stripped_bionic/time64.c:598-614 | fewer than two cycles of days span fewer than 800 years |
| GmTime.LocateDay | src/deps/stripped_bionic/time64.c:569-623 | starting from 2008 instead of 1970 changes nothing |
| GmTime.BrokenDown | src/deps/stripped_bionic/time64.c:566-640 | the fields computed are those of the walked calendar, weekday and day of year included |
| GmTime.CheckTmHolds | src/deps/stripped_bionic/time64.c:251-281 | no broken-down time fails the final check |
| GmTime.Gmtime64R | src/deps/stripped_bionic/time64.c:521-645 | for every 64-bit time: NULL exactly outside the seconds of the years that fit, int overflow exactly from the first second of the last 1900 of them on, and otherwise every field of the walked calendar |
| GmTime.TimeBounds | src/deps/stripped_bionic/time64.c:626-645 | the three seconds that bound these cases start the first and last years that fit and the first that the check cannot add to |
| GmTime.SomeTimeOverflows | src/deps/stripped_bionic/time64.c:251-281 | a 64-bit time whose year fits the struct and overflows the check |
| GmTime.ReduceYear | src/deps/stripped_bionic/time64.c:210-219 | the cycles skipped leave a year from -300 to 499 of the same leap status, and are counted in days |
| GmTime.CountYears | src/deps/stripped_bionic/time64.c:222-235 | the loops up and down add the days from 1970 |
| GmTime.Timegm64 | src/deps/stripped_bionic/time64.c:203-248 | the seconds the date names, for any int year and any clock fields that can be scaled in an int |
| GmTime.GmtimeThenTimegm | src/deps/stripped_bionic/time64.c:199-248 | timegm64 of what gmtime64_r fills is the time it was given |
| GmTime.TimegmThenGmtime | src/deps/stripped_bionic/time64.c:521-645 | gmtime64_r of what timegm64 returns for a valid struct is that struct |
| GmTime.TimeComesBack | src/deps/stripped_bionic/time64.c:199-248 | calling both: every time gmtime64_r breaks down comes back from timegm64 |
| GmTime.DateComesBack | src/deps/stripped_bionic/time64.c:521-645 | calling both: every existing date with a consistent struct comes back from gmtime64_r, whatever int year it has |
| SafeYears.CycleOffsetAt | src/deps/stripped_bionic/time64.c:287-303 | the offset is 16 for each exception century from 2000, before and after it |
| SafeYears.SafeYearResidue | src/deps/stripped_bionic/time64.c:331-361 | both tables lead to the residue of the 28-year cycle that the year's place in its century asks for, in 2010..2037 for later and 1971..1998 for earlier years |
| SafeYears.SafeYearMatches | src/deps/stripped_bionic/time64.c:305-364 | for every integer year the safe year is the year itself from 1971 to 2037, one of 2010..2037 for later and of 1971..1998 for earlier years, and has the same leap status, January 1 weekday and previous year's leap status |
| SafeYears.SafeYearNeighbours | src/deps/stripped_bionic/time64.c:314-320 | the new years before and after fall on the same weekdays as well |
| SafeYears.SafeYearPhase | src/deps/stripped_bionic/time64.c:340-352 | the safe year stands between leap years where the year does, except that a common century year stands like a year before a leap year and the next like the year before that |
| SafeYears.SafeYearIs | src/deps/stripped_bionic/time64.c:305-364 | outside the platform's years a year is the safe year if and only if it lies in the nearest 28 of them, has the same calendar, and stands between leap years as just said |
| SafeYears.NotTheLatest | src/deps/stripped_bionic/time64.c:305-308 | the year 2066 is replaced by 2010, though 2027 has the same calendar |
| LocalTime.SameReading | src/deps/stripped_bionic/time64.c:308-320 | in two years with the same calendar the same moment, up to a day outside the year, reads the same but for the year |
| LocalTime.TransplantKeeps | src/deps/stripped_bionic/time64.c:679-688 | moving a moment to the safe year changes neither what the zone depends on nor, after an offset, any field but the year |
| LocalTime.SafeYearIsSafeTime | src/deps/stripped_bionic/time64.c:687 | the platform is only asked about moments from 1970 to 2037, which a 32-bit time_t holds |
| LocalTime.YearFollowsMonth | src/deps/stripped_bionic/time64.c:707-721 | over less than a day the year changes exactly when the month jumps by eleven, and the other way |
| LocalTime.FixYearDay | src/deps/stripped_bionic/time64.c:729-730 | the correction turns a 366th day of a common year into the 365th and leaves everything else |
| LocalTime.NoYearDayToFix | src/deps/stripped_bionic/time64.c:723-730 | no broken-down time needs that correction |
| LocalTime.MapYear | src/deps/stripped_bionic/time64.c:679-685 | the struct is given a year from 1970 to 2037 and otherwise kept |
| LocalTime.AskPlatform | src/deps/stripped_bionic/time64.c:687-693 | the platform's answer is the local time wanted, in the year the calendar was borrowed from |
| LocalTime.FromUtc | src/deps/stripped_bionic/time64.c:679-735 | from a UTC time the platform's local time, unless its year overflows |
| LocalTime.RestoreYear | src/deps/stripped_bionic/time64.c:695-730 | the year put back is the original one corrected by the month difference; int overflow exactly when it leaves the range |
| LocalTime.AskedIsSafe | src/deps/stripped_bionic/time64.c:679-688 | the moment the platform is asked about lies from 1970 to 2037, and is the time itself if that does |
| LocalTime.AskedYear | src/deps/stripped_bionic/time64.c:679-688 | the moment asked about reads as the time itself but for the year, which is the safe year; so it lies in 2010..2037 for a later time and in 1971..1998 for an earlier one |
| LocalTime.Localtime64R | src/deps/stripped_bionic/time64.c:648-735 | for every 64-bit time and every platform: NULL exactly outside the seconds gmtime64_r can break down, filled exactly when the time and the local time lie before the last 1900 years, and then every field is the local time by the platform's offset at the moment asked about, which AskedYear and SafeYearIs determine |
| LocalTime.ZoneAnswers | src/deps/stripped_bionic/time64.c:679-688 | a zone that does not depend on which year it is answers for that moment as for the time itself |
| LocalTime.LocaltimeInZone | src/deps/stripped_bionic/time64.c:648-735 | so in such a zone every field is the zone's local time, for every 64-bit time |
| LocalTime.SamePoint | src/deps/stripped_bionic/time64.c:314-320 | two moments are at the same calendar position if and only if their broken-down times differ in nothing but the year and both years are leap years or neither is |
| MkTime.BetweenYearsIsDifference | src/deps/stripped_bionic/time64.c:466-488 | summing the years after the left one through the right one is the difference of the two new years if and only if going up or between years of one length |
| MkTime.BetweenYearsCanFail | src/deps/stripped_bionic/time64.c:466-488 | for 1970 and 1972 the sum is a day off |
| MkTime.ReduceLeft | src/deps/stripped_bionic/time64.c:471-480 | both reductions correct the sum by what they move the year; below 1200 the year moves away |
| MkTime.SecondsBetweenYears | src/deps/stripped_bionic/time64.c:466-488 | the loop ends and returns that sum for every int year and a right-hand year from 1600 to 2400, without overflow |
| MkTime.MovedDate | src/deps/stripped_bionic/time64.c:502-509 | moving a date to a year with the same calendar moves the moment by the distance of the new years, and changes nothing a zone depends on |
| MkTime.Mktime64 | src/deps/stripped_bionic/time64.c:491-512 | for every valid date and every platform the moment is that of the date in UTC less what the platform's mktime subtracts for the date asked about, which AskedDateYear determines, unless the year overflows by adding 1900 |
| MkTime.AskedDateYear | src/deps/stripped_bionic/time64.c:497-509 | the date asked about is the date itself in the platform's years, and otherwise the same date of the nearest year with the same calendar and position between leap years |
| MkTime.PointOfDateIs | src/deps/stripped_bionic/time64.c:491-512 | the calendar position of a date is that of the moment it names in UTC |
| MkTime.MktimeInZone | src/deps/stripped_bionic/time64.c:491-512 | in a zone that does not depend on which year it is, the moment the date names there |
| MkTime.MktimeAgreesWithTimegm | src/deps/stripped_bionic/time64.c:491-512 | with the platform on UTC, calling both gives the same seconds for every existing date whose year can be added to |
| MkTime.LaterYearTransplant | src/deps/stripped_bionic/time64.c:305-320 | a moment moved to the safe year of the later of its UTC and local years keeps what the zone depends on and every field but the year |
| MkTime.RoundTripTransfers | src/deps/stripped_bionic/time64.c:491-735 | in any zone and at any moment mktime64 of localtime64_r is off by exactly what the platform's own pair is off by at a moment it can handle |
| MkTime.MktimeUndoesLocaltime | src/deps/stripped_bionic/time64.c:491-735 | with a fixed offset mktime64 of localtime64_r is the time itself |
| MkTime.LocalTimeComesBack | src/deps/stripped_bionic/time64.c:491-735 | calling both: in a zone with a fixed offset every time localtime64_r fills comes back from mktime64 |
| Bits.AndMask | src/deps/libziparchive/zip_archive.cc:320 | masking with a power of two less one is reducing modulo it |
| Bits.BitIsDigit | src/deps/libziparchive/zip_archive.cc:294-298 | bit i is the binary digit of weight 2^i |
| PowerOfTwo.SmearDoubles | src/deps/libziparchive/zip_archive.cc:294-298 | each step makes every bit report twice as many bits above it |
| PowerOfTwo.RoundUpPower2 | src/deps/libziparchive/zip_archive.cc:287-301 | the least power of two not below the argument, or 0 where that does not fit and for 0 |
| EntryName.IsValidEntryName | src/deps/libziparchive/entry_name_utils-inl.h:20-50 | true exactly for concatenations of NUL-free sequences of the RFC 2279 lead and continuation shapes |
| EntryName.SkipContinuations | src/deps/libziparchive/entry_name_utils-inl.h:34-46 | the inner loop accepts exactly a whole sequence and stops on its last byte |
| EntryName.NamesConcatenate | src/deps/libziparchive/entry_name_utils-inl.h:22-50 | acceptance is closed under concatenation, and under removing an accepted beginning |
| EntryName.EncodingsAccepted | src/deps/libziparchive/entry_name_utils-inl.h:20-21 | every encoding of non-zero characters is accepted and uses shortest sequences |
| EntryName.EncodeThenDecode | src/deps/libziparchive/entry_name_utils-inl.h:34-46 | an encoded character is one accepted sequence and decodes to itself |
| EntryName.DecodeThenEncode | src/deps/libziparchive/entry_name_utils-inl.h:34-46 | a shortest accepted sequence is the encoding of what it decodes to |
| EntryName.AcceptedText | src/deps/libziparchive/entry_name_utils-inl.h:20-21 | an accepted name is the encoding of a text if and only if its sequences are shortest; C0 80 is accepted and is none |
| EntryName.EncodingLayout | src/deps/libziparchive/entry_name_utils-inl.h:34-46 | the sequence of a character has its length's lead byte with the topmost bits of the character, and six bits in each byte after it |
| NameIndex.ComputeHash | src/deps/libziparchive/zip_archive.cc:302-310 | the hash is the 31-fold sum modulo 2^32, byte by byte |
| NameIndex.HashIsNumber | src/deps/libziparchive/zip_archive.cc:302-310 | the hash is the low 32 bits of the number whose digits to the base 31 are the bytes |
| NameIndex.ProbeStep | src/deps/libziparchive/zip_archive.cc:321-326 | a step past an occupied slot keeps the probe's history and comes nearer to every empty slot, around the end of the table too |
| NameIndex.AbsentAtEmpty | src/deps/libziparchive/zip_archive.cc:321-329 | a probe ending at an empty slot has shown the name absent from the whole table |
| NameIndex.Probe | src/deps/libziparchive/zip_archive.cc:342-350 | the loop ends, at the name's slot or at the empty slot where it belongs |
| NameIndex.EntryToIndex | src/deps/libziparchive/zip_archive.cc:311-330 | finds the slot with the name if and only if there is one |
| NameIndex.InsertKeeps | src/deps/libziparchive/zip_archive.cc:351-352 | filling the slot a probe ended at keeps every name reachable and all names distinct |
| NameIndex.AddToHash | src/deps/libziparchive/zip_archive.cc:331-354 | reports a duplicate exactly when the name is in the table and then changes nothing; otherwise fills one empty slot and keeps the table valid |
| NameIndex.RoomLeft | src/deps/libziparchive/zip_archive.cc:338-341 | a table with fewer names than slots has an empty one |
| NameIndex.UsedIsCount | src/deps/libziparchive/zip_archive.cc:338-341 | the slots counted as used are those that hold a name |
| ZipParser.SizeExceedsEntries | src/deps/libziparchive/zip_archive.cc:491-496 | the size asked for exceeds the number of entries and fits |
| ZipParser.ParseRecord | src/deps/libziparchive/zip_archive.cc:505-546 | one turn of the loop accepts exactly a well-formed record with a new name, and steps to the next record |
| ZipParser.ParseZipArchive | src/deps/libziparchive/zip_archive.cc:486-549 | 0 exactly when all records are well-formed, inside the directory and distinct in name; kDuplicateEntry exactly when the first bad record has a repeated name; on success the table holds each record once and nothing else |
| ZipParser.OnlyDuplicates | src/deps/libziparchive/zip_archive.cc:334-354 | on records that are well-formed one by one, a duplicate is reported if and only if two have equal names, and otherwise parsing succeeds |
| ZipParser.TableAgreesWithScan | src/deps/libziparchive/zip_archive.cc:238-255 | a name is in the table if and only if a plain scan of the records finds it |
| EndOfDirectory.ScanBackward | src/deps/libziparchive/zip_archive.cc:371-390 | the greatest offset holding the signature where a record fits, or none, in spite of the first-byte filter |
| EndOfDirectory.RecordIsScanned | src/deps/libziparchive/zip_archive.cc:458-473 | a record ending the file lies in the last 65557 bytes and is where the scan stops |
| EndOfDirectory.MapCentralDirectory | src/deps/libziparchive/zip_archive.cc:355-479 | accepted exactly when the length is acceptable and the file ends in a record with matching comment length and no later signature; then it is that record, and the further errors are decided by its fields |
| EndOfDirectory.ExtentIsInside | src/deps/libziparchive/zip_archive.cc:404-412 | a directory that passes the 32-bit check lies before the record if and only if start plus size does not wrap |
| EndOfDirectory.ExtentCanWrap | src/deps/libziparchive/zip_archive.cc:404-412 | an extent that wraps and passes the check |
| EndOfDirectory.LastRecordIsUnique | src/deps/libziparchive/zip_archive.cc:371-390 | a file ends in at most one such record |
| ZipArchives.ZipArchive.OpenArchiveInternal | src/deps/libziparchive/zip_archive.cc:550-560 | opens exactly the files that end in a record whose directory can be mapped and has well-formed records with distinct names; unless the extent wraps, the directory is that stretch of the file |
| ZipArchives.ZipArchive.SlotRecord | src/deps/libziparchive/zip_archive.cc:621-637 | stepping back from a slot's name pointer gives the start of a record that lies, with its name, inside the directory |
| ZipArchives.ZipArchive.FindEntryAt | src/deps/libziparchive/zip_archive.cc:621-735 | the pointer check never fires; 0 exactly when the local header agrees with the record and header and data lie before the directory; then the entry describes that record; any other code says which part of the header, name or extent is wrong |
| ZipArchives.ZipArchive.FindEntry | src/deps/libziparchive/zip_archive.cc:771-785 | not found exactly when no record has the name; 0 exactly when the record with the name can be read, and then it is that one |
| ZipIteration.StartIteration | src/deps/libziparchive/zip_archive.cc:754-767 | starts at the first slot, with no prefix if none is given, unless there is no table |
| ZipIteration.IterationHandle.Next | src/deps/libziparchive/zip_archive.cc:786-814 | visits the first matching slot from the position on and moves past it, or reports the end and goes back to the start |
| ZipIteration.MatchesAreInOrder | src/deps/libziparchive/zip_archive.cc:799-811 | the slots to visit are all matching slots, in slot order |
| ZipIteration.MatchesAreNames | src/deps/libziparchive/zip_archive.cc:799-803 | with a prefix the slots visited are those of the names that begin with it if and only if no shorter name is completed to it by the bytes after it |
| SmallArchive.NameIsCompleted | src/deps/libziparchive/zip_archive.cc:799-803 | a directory the parser accepts, with such a name |
| ZipIteration.WholeRun | src/deps/libziparchive/zip_archive.cc:786-814 | repeated calls visit each of them once, then report the end once, and then start again |
| ZipIteration.VisitAll | src/deps/libziparchive/zip_archive.cc:786-814 | calling until the end is reported takes one call more than there are matching slots, reports each of them in order with its name exactly when its entry can be read, and leaves the handle at the start |
| ZipIteration.EveryRecordVisitedOnce | src/deps/libziparchive/zip_archive.cc:799-811 | without a prefix the slots visited are one for each record |
| ZipWritten.CentralReads | src/deps/libziparchive/zip_archive.cc:89-134 | wherever a directory record is written, its fields read as the little-endian numbers at their places, its name as written, and its length as that of the bytes written |
| ZipWritten.DirectoryReads | src/deps/libziparchive/zip_archive.cc:505-546 | record i of a written directory starts after the ones before it and reads as written |
| ZipWritten.ParseWritten | src/deps/libziparchive/zip_archive.cc:486-549 | parsing a directory written from any list of records: 0 exactly when every record's offset lies before the directory and its name is valid and new; kDuplicateEntry exactly when the first that fails has an earlier one's name; the table then holds exactly the names written |
| ZipWritten.LocalReads | src/deps/libziparchive/zip_archive.cc:139-170 | wherever a local header and its data are written, the data offset computed is where the data starts, behind name and extra field; the header is taken to agree with a record if and only if signature, name and, unless flag 3 is set, the twelve bytes of checksum and sizes are equal |
| ZipWritten.EndReads | src/deps/libziparchive/zip_archive.cc:49-82 | a written end record reads as its count, size, offset and comment length |
| ZipWritten.OpenWritten | src/deps/libziparchive/zip_archive.cc:550-560 | every archive written in the format with distinct, valid names opens, if its directory can be mapped |
| ZipWritten.FindWritten | src/deps/libziparchive/zip_archive.cc:621-785 | then looking up each of its names succeeds and gives that entry's fields, and the file from the offset on holds that entry's data |
| SmallArchive.SmallestArchive | src/deps/libziparchive/zip_archive.cc:49-170 | there is such an archive: one entry of one byte |
| Extraction.MemoryWriter.Append | src/deps/libziparchive/zip_archive.cc:832-841 | appends all or nothing, never past the size, refusing exactly what does not fit |
| Extraction.CrcJoins | src/deps/libziparchive/zip_archive.cc:1021 | the checksum carried from block to block is that of the whole run |
| Extraction.CrcOfByte | src/deps/libziparchive/zip_archive.cc:1021 | the checksum of no bytes is the one carried in, that of one byte a single step inverted before and after; with CrcJoins this determines the checksum of any run |
| Extraction.CopyEntryToWriter | src/deps/libziparchive/zip_archive.cc:1001-1026 | succeeds exactly when no read fails and the bytes fit the writer, and then delivers exactly the entry's bytes in order with their checksum; failure has delivered a beginning of them; memory past the writer's size is untouched |
| Extraction.Flush | src/deps/libziparchive/zip_archive.cc:979-989 | the output buffer reaches the writer when full or at the end, each byte once |
| Extraction.InflateEntryToWriter | src/deps/libziparchive/zip_archive.cc:958-999 | at stream end everything produced has been appended once in order, and what was consumed and what is unused are the bytes read in order; 0 exactly when, besides, the declared number was produced and all declared input read; the declared compressed length is then right if and only if nothing is unused; an I/O error exactly when a read fails; the loop ends |
| Utf16Text.BackwardIsReversed | src/deps/libjavacore/utrie.h:221-259 | walking any text backward gives exactly the reverse of walking it forward |
| Utf16Text.ForwardEncodes | src/deps/libjavacore/utrie.h:221-235 | the code points met encode back to the text, so no unit is skipped or read twice |
| Utf16Text.EncodedComesBack | src/deps/libjavacore/utrie.h:221-235 | encoded code points are met again if and only if no lead surrogate stands before a trail surrogate |
| Utf16Text.PairsInOrder | src/deps/libjavacore/utrie.h:221-235 | the code points of pairs follow each other in the order of their units, from U+10000 to U+10FFFF |
| Trie.GetFromPair | src/deps/libjavacore/utrie.h:183-197 | the value of a pair depends on the lead surrogate and the low ten bits of the second argument |
| Trie.Get | src/deps/libjavacore/utrie.h:203-219 | the simple lookup, for every 32-bit argument, negative ones included; LookupIsLaidOut says what it finds |
| Trie.Next | src/deps/libjavacore/utrie.h:221-235 | a step forward reads the first code point of the rest and the value the simple lookup gives it |
| Trie.Previous | src/deps/libjavacore/utrie.h:237-259 | a step backward reads the last code point before the position and the same value |
| Trie.DirectionsAgree | src/deps/libjavacore/utrie.h:221-259 | the pairs of code point and value met in the two directions are each other's reverse |
| Trie.WalkForward | src/deps/libjavacore/utrie.h:221-235 | stepping forward from the start to the end returns the code points of the text with the values the simple lookup gives them |
| Trie.WalkBackward | src/deps/libjavacore/utrie.h:237-259 | stepping backward from the end returns the same pairs in reverse |
| Trie.LookupIsLaidOut | src/deps/libjavacore/utrie.h:177-219 | if the data blocks that the index entries name, directly for the BMP, displaced for lead surrogate code points and through the folding offset for pairs, are the 32 values of their code points, then the lookup of every code point gives its value |
| Trie.LaysOutLookups | src/deps/libjavacore/utrie.h:177-219 | the tables lay out given values if and only if those are what lookups give |
| Trie.ValuesAreLaidOut | src/deps/libjavacore/utrie.h:221-259 | so the walks give each code point met its laid-out value |
| SlotMask.AllocIsLeastFree | src/libs/gralloc-shashlik/gralloc.cpp:167-184 | with fewer buffers than a word has bits, the full test and the search agree with the set: refused exactly when all slots are live, otherwise the least free one |
| SlotMask.TakenRepresents | src/libs/gralloc-shashlik/gralloc.cpp:180 | setting the bit adds exactly the slot |
| SlotMask.ReleasedRepresents | src/libs/gralloc-shashlik/gralloc.cpp:354 | clearing the bit removes exactly the slot |
| SlotMask.MaskIsLiveSet | src/libs/gralloc-shashlik/gralloc.cpp:156-191 | for up to 32 buffers, and fewer than a word has bits, every run of allocations and frees is defined and leaves the mask equal to the set of live slots |
| SlotMask.WideMaskRepeats | src/libs/gralloc-shashlik/gralloc.cpp:179-181 | in 64-bit words, for 33 to 63 buffers 32 allocations fill the mask, and every further one hands out slot 32 without recording it |
| SlotMask.UndefinedFromW | src/libs/gralloc-shashlik/gralloc.cpp:167 | with as many buffers as a word has bits the first allocation shifts too far |
| SlotMask.MaskFollowsUpTo32 | src/libs/gralloc-shashlik/gralloc.cpp:156-191 | every run from the empty mask is defined and leaves it equal to the set of live slots if and only if there are at most 32 buffers and fewer than a word has bits |
| Framebuffer.RoundsUp | src/libs/gralloc-shashlik/gr.h:35-37 | the mapping's size is the least whole number of pages that holds the buffers, or 0 when a word cannot hold that |
| Framebuffer.Module.MapFrameBufferLocked | src/libs/gralloc-shashlik/framebuffer.cpp:142-301 | maps once; the code is the driver's error, the leftover error when it reports no memory, or that of the mapping; otherwise a usable geometry gives a valid module with no live slot, even if the mapping failed |
| Framebuffer.Module.AllocFramebufferLocked | src/libs/gralloc-shashlik/gralloc.cpp:140-191 | maps first if nothing is mapped, and fails as that does; undefined exactly when the full test shifts too far or the offset's difference overflows; otherwise -ENOMEM exactly when every slot is live or the driver left nothing to allocate, or a handle for the least free slot, all else kept |
| Framebuffer.Module.TakeSlot | src/libs/gralloc-shashlik/gralloc.cpp:172-188 | the least slot that is not live becomes live, with a handle of its address, and says whether the offset's difference overflowed |
| Framebuffer.Module.SlotOffset | src/libs/gralloc-shashlik/gralloc_priv.h:80-85 | the address extended to 64 bits, the offset cut to an int, and when their difference fits a word |
| Words.WidenedDifference | src/libs/gralloc-shashlik/gralloc.cpp:186-187 | the 64-bit difference of two addresses is their distance in 64-bit words or within one half of the address space, and is 2^64 - 2^32 more across the halves of a 32-bit one; cut to a word it is the distance in every case |
| Words.SignedIs | src/libs/gralloc-shashlik/gralloc_priv.h:80-85 | a word kept signed is the one number in range that is the same modulo its width |
| Framebuffer.Module.OffsetIsKept | src/libs/gralloc-shashlik/gralloc.cpp:186-188 | a handle's offset is its slot's if and only if the slot starts below 2 GiB |
| Framebuffer.OffsetCanBeLost | src/libs/gralloc-shashlik/gralloc.cpp:186-188 | a usable geometry whose third slot starts beyond it |
| Framebuffer.Module.FindFreeSlot | src/libs/gralloc-shashlik/gralloc.cpp:177-184 | the address, a wrapping intptr_t, moves with the slot to the first clear bit |
| Framebuffer.Module.Free | src/libs/gralloc-shashlik/gralloc.cpp:348-354 | in 64-bit words, or if the slot starts in the same half of the address space as the mapping, the slot recovered from the address is the one allocated, and only it becomes free |
| Framebuffer.SlotCanBeLost | src/libs/gralloc-shashlik/gralloc.cpp:348-354 | a mapping in 32-bit words whose third slot is handed out and gives another index |
| Framebuffer.SlotCanBeLostAfterOverflow | src/libs/gralloc-shashlik/gralloc.cpp:348-354 | one whose second slot does, after its offset overflowed |
| Framebuffer.Module.RangesAreDisjoint | src/libs/gralloc-shashlik/gralloc.cpp:186-188 | the ranges two live handles point to are disjoint and lie inside the mapping, across the halves too |
| Framebuffer.Module.SlotFromAddress | src/libs/gralloc-shashlik/gralloc.cpp:352-353 | dividing the 64-bit difference of the addresses gives the slot under that condition, and what it divides otherwise; cut to a word and divided by the line length it gives the slot's first line in every case |
| Framebuffer.Module.Post | src/libs/gralloc-shashlik/framebuffer.cpp:103-112 | the pan offset is the slot times the page height, and the page lies inside the virtual height; a refusal by the driver is returned and leaves the current buffer |
| Ownership.MaybeStackArray.AliasInstead | src/deps/libjavacore/cmemory.h:294-307 | an owned block is freed and the array aliased; illegal arguments change nothing; the buffer in use is a freed one only if the caller passed one or its own block |
| Ownership.MaybeStackArray.Resize | src/deps/libjavacore/cmemory.h:363-388 | every item below length and both capacities is at its place in the new block, and the old block is freed; a failure changes nothing |
| Ownership.MaybeStackArray.OrphanOrClone | src/deps/libjavacore/cmemory.h:391-415 | an owned block is handed over, another copied; the capacity reported is right if and only if the block was not owned or the length was its capacity |
| Ownership.MaybeStackArray.Destroy | src/deps/libjavacore/cmemory.h:335-339 | then every block issued was freed or handed over, never both |
| Ownership.OneCall | src/deps/libjavacore/cmemory.h:294-415 | one call keeps the account of blocks returned, makes the buffer aliased the one in use, adds the block resized to or given away to the list of its kind, and a buffer that comes into use without being owned is not freed unless the caller aliases a block from a resize |
| Ownership.EveryRun | src/deps/libjavacore/cmemory.h:252-415 | after any run of calls, with any allocation failing and the inline buffer or any block returned so far aliased, the blocks freed are exactly those returned by a resize and by no orphan, those handed over exactly those returned by an orphan; the inline buffer and arrays from outside are never freed; a freed block is in use only if a block from a resize was aliased |
| Ownership.FreedBlockInUse | src/deps/libjavacore/cmemory.h:300-307 | resizing and aliasing the block returned leaves a freed block in use |
| HeaderOwnership.MaybeStackHeaderAndArray.AliasInstead | src/deps/libjavacore/cmemory.h:471-484 | the variant with a header: an owned block is freed and the memory aliased, or nothing changes; the memory in use is a freed block only if the caller passed one or its own |
| HeaderOwnership.MaybeStackHeaderAndArray.Resize | src/deps/libjavacore/cmemory.h:537-566 | header and items within length and both capacities survive, a negative length counting as 0 |
| HeaderOwnership.MaybeStackHeaderAndArray.OrphanOrClone | src/deps/libjavacore/cmemory.h:568-594 | hands over or copies header and items; the capacity reported is right under the same condition |
| HeaderOwnership.MaybeStackHeaderAndArray.Destroy | src/deps/libjavacore/cmemory.h:515-519 | then every block issued was freed or handed over, never both |
| HeaderOwnership.EveryRun | src/deps/libjavacore/cmemory.h:433-594 | the same as for the variant without a header, after any run of calls |

## Left out

- `asctime64_r`, `ctime64_r` and the wrappers around static storage: formatting and copying only.
- `fake_localtime_r` and `fake_gmtime_r`, and a platform `localtime` or `mktime` that fails: the platform is taken to answer for the years asked.
- Zone rules that change from year to year, outside the platform's own years: the safe-year method cannot follow them.
- LocalTime.PlatformLocaltime: stands for the platform, so its contract is the assumption about it.
- MkTime.PlatformMktime: stands for the platform; its contract assumes an existing date, which mktime leaves in its year.
- MkTime.SecondsBetweenYears: a right-hand year outside 1600..2400 is not modelled; mktime64 passes only safe years.
- File descriptors, seeks and failing reads outside extraction, `FileWriter`, data descriptors and the dispatch on the compression method: input and output without a property of their own.
- The checksum comparison after extraction: it is disabled in the source.
- Extraction.InflateEntryToWriter: the buffers are sequences, so reuse of one array is not captured, and the decompressor's own checksum is left out.
- Allocation failure of the hash table and of scratch buffers: the source does not handle it.
- The NUL-terminated form of the traversal, with no limit given: a text has a length here.
- Building, folding and serialising a trie: a well-formed trie is given.
- The path for a single buffer, ordinary and Wayland buffers, locks and ioctls: each call is one step on framebuffer handles.
- Framebuffer.Module.AllocFramebufferLocked: stated for a driver that reports from two to 32 pages whose size fits 32 bits; for one page the source allocates an ordinary buffer.
- Ownership.EveryRun: a capacity given with an array to alias is capped at the array's length, since the source trusts the caller in this; what a caller does with a block handed to it is not followed, and a freed block in use is tied to the calls that can lead to it, not traced block by block.
- HeaderOwnership.EveryRun: the same.
- Invalid handles in `gralloc_free` and `fb_post`: rejected before any of this.
- Process control, properties, launcher, windowing and hardware loading: no algorithm to prove.
