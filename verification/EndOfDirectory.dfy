/** Finding the end-of-central-directory record (APPNOTE.TXT, section 4.3.16) by
    scanning backwards over the last bytes of the file. */
module EndOfDirectory {
  import opened CInt
  import opened ZipCodes
  import opened EntryName
  import opened ZipDirectory

  const EOCD_SIGNATURE: uint32 := 0x06054b50
  const EOCD_SIZE: nat := 22
  const MAX_COMMENT: nat := 65535
  const MAX_EOCD_SEARCH: nat := MAX_COMMENT + EOCD_SIZE

  predicate SignatureAt(s: Bytes, i: nat) {
    i + 4 <= |s| && FileU32(s, i) == EOCD_SIGNATURE
  }

  // Where a record could start and still be whole.
  predicate LastSignature(s: Bytes, i: int) {
    && -1 <= i <= |s| - EOCD_SIZE
    && (i >= 0 ==> SignatureAt(s, i))
    && forall j: nat :: i < j <= |s| - EOCD_SIZE ==> !SignatureAt(s, j)
  }

  // The scan, which looks at the signature only where its first byte is.
  method ScanBackward(buffer: Bytes) returns (i: int)
    requires |buffer| >= EOCD_SIZE
    ensures LastSignature(buffer, i)
  {
    i := |buffer| - EOCD_SIZE;
    while i >= 0
      invariant -1 <= i <= |buffer| - EOCD_SIZE
      invariant forall j: nat :: i < j <= |buffer| - EOCD_SIZE ==> !SignatureAt(buffer, j)
    {
      if buffer[i] == 0x50 {
        if FileU32(buffer, i) == EOCD_SIGNATURE {
          return;
        }
      }
      SignatureStartsWith50(buffer, i);
      i := i - 1;
    }
  }

  lemma SignatureStartsWith50(s: Bytes, i: nat)
    requires i + 4 <= |s|
    ensures FileU32(s, i) == EOCD_SIGNATURE ==> s[i] == 0x50
  {
  }

  // The record the file ends with: whole, its comment reaching exactly to the end, and no
  // later place a scan would stop at.
  ghost predicate IsLastRecord(file: Bytes, e: int) {
    && 0 <= e <= |file| - EOCD_SIZE && SignatureAt(file, e)
    && e + EOCD_SIZE + FileU16(file, e + 20) as int == |file|
    && forall j: nat :: e < j <= |file| - EOCD_SIZE ==> !SignatureAt(file, j)
  }

  lemma LastRecordIsUnique(file: Bytes, e: int, f: int)
    requires IsLastRecord(file, e) && IsLastRecord(file, f)
    ensures e == f
  {
  }

  function NumRecords(file: Bytes, e: nat): uint16
    requires e + EOCD_SIZE <= |file|
  { FileU16(file, e + 10) }

  function DirectorySize(file: Bytes, e: nat): uint32
    requires e + EOCD_SIZE <= |file|
  { FileU32(file, e + 12) }

  function DirectoryStart(file: Bytes, e: nat): uint32
    requires e + EOCD_SIZE <= |file|
  { FileU32(file, e + 16) }

  lemma SameSignature(file: Bytes, start: nat, j: nat)
    requires start <= |file|
    ensures SignatureAt(file[start..], j) <==> SignatureAt(file, start + j)
  {
  }

  // The last record lies in the window scanned, and the scan stops at it.
  lemma RecordIsScanned(file: Bytes, start: nat, i: int, e: int)
    requires start == if |file| < MAX_EOCD_SEARCH then 0 else |file| - MAX_EOCD_SEARCH
    requires LastSignature(file[start..], i) && IsLastRecord(file, e)
    ensures e == start + i && i >= 0
  {
    assert e >= start;
    SameSignature(file, start, e - start);
    if i >= 0 { SameSignature(file, start, i); }
    hide SignatureAt, FileU16;
  }

  // Where the scan stops is the last record if its comment ends with the file.
  lemma ScannedIsLast(file: Bytes, start: nat, i: int)
    requires start <= |file| && LastSignature(file[start..], i) && i >= 0
    requires start + i + EOCD_SIZE + FileU16(file, start + i + 20) as int == |file|
    ensures IsLastRecord(file, start + i)
  {
    SameSignature(file, start, i);
    forall j: nat | start + i < j <= |file| - EOCD_SIZE ensures !SignatureAt(file, j) {
      SameSignature(file, start, j - start);
    }
  }

  // Main result: the file is accepted as an archive exactly when it has an acceptable length
  // and ends in such a record, and it is that record which is read. The directory's extent is
  // checked in 32 bits.
  method MapCentralDirectory(file: Bytes) returns (r: int32, eocd: nat, directoryOffset: uint32, directorySize: uint32, numEntries: uint16)
    ensures r != INVALID_FILE <==> |file| <= 0xffff_ffff && exists e: int :: IsLastRecord(file, e)
    ensures r != INVALID_FILE ==> IsLastRecord(file, eocd)
    ensures r != INVALID_FILE ==>
      r == if (DirectoryStart(file, eocd) as int + DirectorySize(file, eocd) as int) % UINT32_COUNT > eocd then INVALID_OFFSET
           else if NumRecords(file, eocd) == 0 then EMPTY_ARCHIVE else 0
    ensures r == 0 ==> directoryOffset == DirectoryStart(file, eocd) && directorySize == DirectorySize(file, eocd)
    ensures r == 0 ==> numEntries == NumRecords(file, eocd) > 0
  {
    eocd, directoryOffset, directorySize, numEntries := 0, 0, 0, 0;
    if |file| > 0xffff_ffff { return INVALID_FILE, eocd, directoryOffset, directorySize, numEntries; }
    if |file| < EOCD_SIZE { return INVALID_FILE, eocd, directoryOffset, directorySize, numEntries; }
    var readAmount := MAX_EOCD_SEARCH;
    if |file| < readAmount { readAmount := |file|; }
    var searchStart := |file| - readAmount;
    var i := ScanBackward(file[searchStart..]);
    forall e: int | IsLastRecord(file, e) ensures i >= 0 && e == searchStart + i { RecordIsScanned(file, searchStart, i, e); }
    hide LastSignature, IsLastRecord, FileU16, FileU32;
    if i < 0 { return INVALID_FILE, eocd, directoryOffset, directorySize, numEntries; }
    eocd := searchStart + i;
    var calculatedLength := eocd + EOCD_SIZE + FileU16(file, eocd + 20) as int;
    if calculatedLength != |file| { return INVALID_FILE, eocd, directoryOffset, directorySize, numEntries; }
    ScannedIsLast(file, searchStart, i);
    if (DirectoryStart(file, eocd) as int + DirectorySize(file, eocd) as int) % UINT32_COUNT > eocd {
      return INVALID_OFFSET, eocd, directoryOffset, directorySize, numEntries;
    }
    if NumRecords(file, eocd) == 0 { return EMPTY_ARCHIVE, eocd, directoryOffset, directorySize, numEntries; }
    return 0, eocd, DirectoryStart(file, eocd), DirectorySize(file, eocd), NumRecords(file, eocd);
  }

  // The directory that passes the 32-bit check lies before the record exactly when the sum
  // of its start and size does not wrap.
  lemma ExtentIsInside(start: uint32, size: uint32, eocd: nat)
    requires (start as int + size as int) % UINT32_COUNT <= eocd < UINT32_COUNT
    ensures start as int + size as int <= eocd <==> start as int + size as int < UINT32_COUNT
  {
  }

  // It can: this extent passes the check for a record at 22, but ends 4 GiB beyond it.
  lemma ExtentCanWrap() returns (start: uint32, size: uint32, eocd: nat)
    ensures eocd == EOCD_SIZE && (start as int + size as int) % UINT32_COUNT <= eocd < start as int
  {
    start, size, eocd := 0xffff_fff0, 0x20, EOCD_SIZE;
  }
}
