/** An archive file of one entry, byte by byte: its name is "a", it has no data, and its record
    in the directory has the extra field "b". */
module SmallArchive {
  import opened CInt
  import opened EntryName
  import opened ZipFormat
  import opened ZipDirectory
  import opened NameIndex
  import opened ZipParser
  import opened ZipIteration
  import opened ZipWritten

  // All other bytes of the fixed parts are 0.
  function CentralByte(i: nat): uint8 {
    if i == 0 then 0x50 else if i == 1 then 0x4b else if i == 2 then 1 else if i == 3 then 2
    else if i == 28 || i == 30 then 1 else 0
  }

  function LocalByte(i: nat): uint8 {
    if i == 0 then 0x50 else if i == 1 then 0x4b else if i == 2 then 3 else if i == 3 then 4
    else if i == 26 then 1 else 0
  }

  function EndByte(i: nat): uint8 {
    if i == 0 then 0x50 else if i == 1 then 0x4b else if i == 2 then 5 else if i == 3 then 6
    else if i == 10 then 1 else if i == 12 then 48 else if i == 16 then 31 else 0
  }

  function CentralHead(): Bytes { seq(46, i requires 0 <= i < 46 => CentralByte(i)) }
  function LocalHead(): Bytes { seq(30, i requires 0 <= i < 30 => LocalByte(i)) }
  function EndHead(): Bytes { seq(22, i requires 0 <= i < 22 => EndByte(i)) }

  function TheRecord(): Central { Central(CentralHead(), [0x61], [0x62], []) }
  function TheEntry(): Local { Local(LocalHead(), [0x61], [], []) }
  function TheEnd(): End { End(EndHead(), []) }

  lemma Small16(s: Bytes, k: nat)
    requires k + 2 <= |s| && s[k + 1] == 0
    ensures Le(s[k..k + 2]) == s[k] as nat
  {
    LeOfTwo(s[k..k + 2]);
  }

  lemma Small32(s: Bytes, k: nat)
    requires k + 4 <= |s| && s[k + 1] == s[k + 2] == s[k + 3] == 0
    ensures Le(s[k..k + 4]) == s[k] as nat
  {
    LeOfFour(s[k..k + 4]);
    LeOfTwo(s[k..k + 4][..2]);
    LeOfTwo(s[k..k + 4][2..]);
  }

  lemma FirstFour(s: Bytes, a: uint8, b: uint8, c: uint8, d: uint8)
    requires |s| >= 4 && s[0] == a && s[1] == b && s[2] == c && s[3] == d
    ensures s[..4] == [a, b, c, d]
  {
  }

  lemma SameStretch(s: Bytes, i: nat, t: Bytes, j: nat, n: nat)
    requires i + n <= |s| && j + n <= |t| && forall k :: i <= k < i + n ==> s[k] == t[k - i + j]
    ensures s[i..i + n] == t[j..j + n]
  {
  }

  lemma RecordIsCentral()
    ensures IsCentral(TheRecord()) && Le(CentralHead()[42..46]) == 0
  {
    Small16(CentralHead(), 28);
    Small16(CentralHead(), 30);
    Small16(CentralHead(), 32);
    Small32(CentralHead(), 42);
    FirstFour(CentralHead(), 0x50, 0x4b, 1, 2);
    hide Le;
  }

  lemma EntryAgrees()
    ensures IsHeader(TheEntry()) && |CentralHead()| == 46 && Agrees(TheEntry(), TheRecord())
  {
    Small16(LocalHead(), 26);
    Small16(LocalHead(), 28);
    FirstFour(LocalHead(), 0x50, 0x4b, 3, 4);
    SameStretch(LocalHead(), 14, CentralHead(), 16, 12);
    hide Le, LocalHead, CentralHead;
  }

  lemma RecordSizes()
    ensures |CentralHead()| == 46 && Le(CentralHead()[20..24]) == 0 && Le(CentralHead()[24..28]) == 0
  {
    Small32(CentralHead(), 20);
    Small32(CentralHead(), 24);
    hide Le;
  }

  lemma EntryIsLocal()
    ensures IsLocal(TheEntry(), TheRecord())
  {
    RecordIsCentral();
    EntryAgrees();
    RecordSizes();
    hide Le, IsCentral, IsHeader, Agrees, LocalHead, CentralHead;
  }

  lemma EndIsEnd()
    ensures IsEnd(TheEnd(), 1, 48, 31)
  {
    Small16(EndHead(), 10);
    Small32(EndHead(), 12);
    Small32(EndHead(), 16);
    Small16(EndHead(), 20);
    FirstFour(EndHead(), 0x50, 0x4b, 5, 6);
    hide Le;
  }

  lemma RecordIsWritten()
    ensures WriteDirectory([TheRecord()]) == WriteCentral(TheRecord()) && |WriteCentral(TheRecord())| == 48
  {
    assert [TheRecord()][1..] == [];
  }

  // The file is an archive in the format.
  lemma SmallestArchive() returns (file: Bytes)
    ensures IsArchive(file, WriteLocal(TheEntry()), [TheEntry()], [TheRecord()], TheEnd())
  {
    var body, dir := WriteLocal(TheEntry()), WriteDirectory([TheRecord()]);
    RecordIsWritten();
    RecordIsCentral();
    EntryIsLocal();
    EndIsEnd();
    ShortNameIsName();
    file := body + dir + (EndHead() + []);
    hide IsCentral, IsLocal, IsEntryName, IsEnd, WriteDirectory, Le;
    assert body[0..0 + |body|] == body;
  }

  lemma ShortNameIsName()
    ensures IsEntryName([0x61]) && |WriteLocal(TheEntry())| == 31
  {
    var name: Bytes := [0x61];
    assert name[..1] == name && name[1..] == [];
    NameIsParts(name);
    hide IsEntryName;
  }

  lemma SmallDirectoryIsGood(d: Directory)
    requires d.bytes == WriteDirectory([TheRecord()])
    ensures GoodPrefix(d, 31, 1)
  {
    var cs := [TheRecord()];
    RecordIsCentral();
    ShortNameIsName();
    hide CentralHead, IsCentral, IsEntryName, Le, GoodPrefix, WriteDirectory;
    PrefixOfWritten(d, cs, 31, 1);
  }

  lemma SmallDirectoryReads(d: Directory)
    requires d.bytes == WriteDirectory([TheRecord()])
    ensures EntryOf(d, 0) == Name(46, 1)
    ensures d.Slice(46, 1) == [0x61] && d.Slice(46, 2) == [0x61, 0x62]
  {
    RecordIsWritten();
    RecordIsCentral();
    hide IsCentral, Le, WriteDirectory, CentralByte;
    assert |CentralHead()| == 46 && d.bytes == CentralHead() + [0x61, 0x62] + [];
    assert d.bytes == CentralHead() + [0x61] + [0x62];
    hide CentralHead;
    SliceReads(d, CentralHead(), [0x61, 0x62], []);
    SliceReads(d, CentralHead(), [0x61], [0x62]);
    CentralReads(d, [], TheRecord(), []);
    LengthReads(d, 0, TheRecord());
    hide ReadsAs, NameLength, WriteCentral;
    assert RecordStart(d, 0) == 0;
  }

  // The parser accepts its directory, and with the prefix "ab" the name "a" is visited.
  lemma NameIsCompleted(d: Directory, t: Table) returns (i: nat)
    requires d.bytes == WriteDirectory([TheRecord()]) && Indexes(d, t, 1)
    ensures GoodPrefix(d, 31, 1)
    ensures i < |t| && Matches(d, t, [0x61, 0x62], i) && BytesOf(d, t[i]) == [0x61]
  {
    SmallDirectoryIsGood(d);
    SmallDirectoryReads(d);
    hide WriteDirectory, GoodPrefix, EntryOf, ValidTable, Directory.Slice;
    assert IsEntered(d, t, 0);
    i :| i < |t| && t[i] == EntryOf(d, 0);
  }
}
