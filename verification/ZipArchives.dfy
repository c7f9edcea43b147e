/** Opening an archive, looking entries up and iterating over them. */
module ZipArchives {
  import opened CInt
  import opened ZipCodes
  import opened Options
  import opened Bits
  import opened EntryName
  import opened ZipDirectory
  import opened NameIndex
  import opened ZipParser
  import opened EndOfDirectory

  const LOCAL_SIGNATURE: uint32 := 0x04034b50
  const LOCAL_SIZE: nat := 30
  const COMPRESS_STORED: uint16 := 0

  // What the central record at p says about its entry.
  function Method(d: Directory, p: nat): uint16 { d.U16(p + 10) }
  function ModTime(d: Directory, p: nat): uint16 { d.U16(p + 12) }
  function Crc(d: Directory, p: nat): uint32 { d.U32(p + 16) }
  function CompressedSize(d: Directory, p: nat): uint32 { d.U32(p + 20) }
  function UncompressedSize(d: Directory, p: nat): uint32 { d.U32(p + 24) }

  // The local header at h is there and agrees with the central record at p.
  predicate HeaderAgrees(file: Bytes, d: Directory, p: nat, h: nat)
    requires h + LOCAL_SIZE <= |file|
  {
    && FileU32(file, h) == LOCAL_SIGNATURE
    && (!Bit(FileU16(file, h + 6) as nat, 3) ==>
          FileU32(file, h + 14) == Crc(d, p) && FileU32(file, h + 18) == CompressedSize(d, p)
          && FileU32(file, h + 22) == UncompressedSize(d, p))
    && FileU16(file, h + 26) == NameLength(d, p)
    && h + LOCAL_SIZE + NameLength(d, p) as nat <= |file|
    && file[h + LOCAL_SIZE..h + LOCAL_SIZE + NameLength(d, p) as nat] == NameOf(d, p)
  }

  function DataOffset(file: Bytes, h: nat): nat
    requires h + LOCAL_SIZE <= |file|
  {
    h + LOCAL_SIZE + FileU16(file, h + 26) as nat + FileU16(file, h + 28) as nat
  }

  // The entry of the record at p can be read: header and data lie before the directory.
  predicate EntryIsSound(file: Bytes, d: Directory, directoryOffset: int, p: nat) {
    var h := LocalHeaderOffset(d, p) as nat;
    && h + LOCAL_SIZE < directoryOffset && h + LOCAL_SIZE <= |file|
    && HeaderAgrees(file, d, p, h)
    && h + LOCAL_SIZE + NameLength(d, p) as nat <= directoryOffset
    && DataOffset(file, h) + CompressedSize(d, p) as nat <= directoryOffset
    && (Method(d, p) == COMPRESS_STORED ==> DataOffset(file, h) + UncompressedSize(d, p) as nat <= directoryOffset)
  }

  // What each error says about the header at h of the record at p.
  predicate ErrorMeans(r: int32, file: Bytes, d: Directory, directoryOffset: int, p: nat, h: nat) {
    && (r == IO_ERROR ==> h + LOCAL_SIZE + NameLength(d, p) as nat > |file|)
    && (r == INCONSISTENT_INFORMATION ==>
          h + LOCAL_SIZE <= |file| && FileU32(file, h) == LOCAL_SIGNATURE && !HeaderAgrees(file, d, p, h))
    && (r == INVALID_OFFSET ==>
          || h + LOCAL_SIZE + NameLength(d, p) as nat >= directoryOffset
          || (h + LOCAL_SIZE <= |file| && FileU32(file, h) != LOCAL_SIGNATURE)
          || (h + LOCAL_SIZE <= |file| && DataOffset(file, h) + CompressedSize(d, p) as nat > directoryOffset)
          || (h + LOCAL_SIZE <= |file| && Method(d, p) == COMPRESS_STORED
              && DataOffset(file, h) + UncompressedSize(d, p) as nat > directoryOffset))
  }

  class ZipEntry {
    var compressionMethod: uint16
    var modTime: uint32
    var hasDataDescriptor: bool
    var crc32: uint32
    var compressedLength: uint32
    var uncompressedLength: uint32
    var offset: int64

    constructor () {
      compressionMethod, modTime, hasDataDescriptor := 0, 0, false;
      crc32, compressedLength, uncompressedLength, offset := 0, 0, 0, 0;
    }

    // It describes the entry of the record at p.
    ghost predicate Describes(file: Bytes, d: Directory, p: nat)
      reads this
    {
      var h := LocalHeaderOffset(d, p) as nat;
      && h + LOCAL_SIZE <= |file|
      && compressionMethod == Method(d, p) && modTime as int == ModTime(d, p) as int && crc32 == Crc(d, p)
      && compressedLength == CompressedSize(d, p) && uncompressedLength == UncompressedSize(d, p)
      && hasDataDescriptor == Bit(FileU16(file, h + 6) as nat, 3)
      && offset as int == DataOffset(file, h)
    }
  }

  // A file ending in the record at e opens: its extent passes the 32-bit check, it has
  // entries, it can be mapped, and the records are well-formed and differ in name.
  ghost predicate Opens(file: Bytes, e: nat, mapFile: (nat, nat) -> Option<Directory>)
    requires e + EOCD_SIZE <= |file|
  {
    var start, size := DirectoryStart(file, e), DirectorySize(file, e);
    && (start as int + size as int) % UINT32_COUNT <= e
    && NumRecords(file, e) > 0
    && mapFile(start as nat, size as nat).Some?
    && GoodPrefix(mapFile(start as nat, size as nat).value, start as int, NumRecords(file, e) as nat)
  }

  lemma OpensAtLast(file: Bytes, e: nat, mapFile: (nat, nat) -> Option<Directory>)
    requires IsLastRecord(file, e)
    ensures e + EOCD_SIZE <= |file|
    ensures (exists f: int :: IsLastRecord(file, f) && Opens(file, f, mapFile)) <==> Opens(file, e, mapFile)
  {
    forall f: int | IsLastRecord(file, f) ensures f == e { LastRecordIsUnique(file, e, f); }
    hide Opens;
  }

  // What is mapped is the file's bytes, where the stretch lies in the file.
  ghost predicate MapsFile(file: Bytes, mapFile: (nat, nat) -> Option<Directory>) {
    forall s: nat, n: nat :: mapFile(s, n).Some? && s + n <= |file| ==> mapFile(s, n).value.bytes == file[s..s + n]
  }

  // Unless its extent wraps, the directory is that stretch of the file, before the record.
  ghost predicate IsStretch(file: Bytes, e: nat, d: Directory)
    requires e + EOCD_SIZE <= |file|
  {
    var start, end := DirectoryStart(file, e) as int, DirectoryStart(file, e) as int + DirectorySize(file, e) as int;
    end < UINT32_COUNT ==> end <= e && d.bytes == file[start..end]
  }

  lemma StretchIsMapped(file: Bytes, e: nat, mapFile: (nat, nat) -> Option<Directory>)
    requires MapsFile(file, mapFile) && IsLastRecord(file, e) && e < UINT32_COUNT
    requires (DirectoryStart(file, e) as int + DirectorySize(file, e) as int) % UINT32_COUNT <= e
    ensures var mapped := mapFile(DirectoryStart(file, e) as nat, DirectorySize(file, e) as nat);
      mapped.Some? ==> IsStretch(file, e, mapped.value)
  {
    hide FileU32, SignatureAt;
    ExtentIsInside(DirectoryStart(file, e), DirectorySize(file, e), e);
  }

  class ZipArchive {
    const file: Bytes
    var directory: Directory
    var directoryOffset: int64
    var numEntries: uint16
    var hashTable: array?<ZipEntryName>

    // The table is an index of the directory's records, all well-formed.
    ghost predicate Valid()
      reads this, hashTable
    {
      && hashTable != null
      && Indexes(directory, hashTable[..], numEntries as nat) && HasRoom(hashTable[..])
      && GoodPrefix(directory, directoryOffset as int, numEntries as nat)
      && 0 <= directoryOffset as int < UINT32_COUNT
    }

    constructor (file: Bytes)
      ensures this.file == file && hashTable == null
    {
      this.file := file;
      directory := Directory([], i => 0);
      directoryOffset, numEntries, hashTable := 0, 0, null;
    }

    // Maps and parses the directory. 'mapFile' is the platform's mapping of a stretch of the
    // file, which may fail, and is the file's bytes where the stretch lies in the file.
    method OpenArchiveInternal(mapFile: (nat, nat) -> Option<Directory>) returns (r: int32)
      requires MapsFile(file, mapFile)
      modifies this
      ensures r == 0 <==> |file| < UINT32_COUNT && exists e: int :: IsLastRecord(file, e) && Opens(file, e, mapFile)
      ensures r == 0 ==> Valid()
      ensures r == 0 ==> exists e: int :: IsLastRecord(file, e) && IsOpenAt(e, mapFile)
    {
      var eocd: nat, offset: uint32, size: uint32, count: uint16;
      hide IsLastRecord, GoodPrefix, HasDuplicate, Indexes, HasRoom, MapsFile, IsStretch;
      r, eocd, offset, size, count := MapCentralDirectory(file);
      if r != INVALID_FILE { OpensAtLast(file, eocd, mapFile); }
      if r != 0 { return; }
      StretchIsMapped(file, eocd, mapFile);
      var mapped := mapFile(offset as nat, size as nat);
      if mapped.None? { return MMAP_FAILED; }
      directory := mapped.value;
      numEntries := count;
      directoryOffset := offset as int64;
      r, hashTable := ParseZipArchive(directory, directoryOffset, numEntries);
      assert r == 0 ==> IsOpenAt(eocd, mapFile);
    }

    // The archive's fields are what the record at e says, and unless its extent wraps the
    // directory is that stretch of the file.
    ghost predicate IsOpenAt(e: nat, mapFile: (nat, nat) -> Option<Directory>)
      requires e + EOCD_SIZE <= |file|
      reads this
    {
      && mapFile(DirectoryStart(file, e) as nat, DirectorySize(file, e) as nat) == Some(directory)
      && directoryOffset as int == DirectoryStart(file, e) as int && numEntries == NumRecords(file, e)
      && IsStretch(file, e, directory)
    }

    // The record a slot stands for.
    lemma SlotRecord(ent: nat) returns (j: nat)
      requires Valid() && ent < hashTable.Length && hashTable[ent].Name?
      ensures j < numEntries as nat && hashTable[ent] == EntryOf(directory, j)
      ensures RecordStart(directory, j) + RECORD_SIZE + NameLength(directory, RecordStart(directory, j)) as nat <= |directory.bytes|
    {
      assert IsRecord(directory, numEntries as nat, hashTable[..][ent]);
      j :| j < numEntries as nat && hashTable[..][ent] == EntryOf(directory, j);
      assert WellFormed(directory, directoryOffset as int, j);
    }

    // Reads the entry a slot stands for. The name pointer steps back to the record's start, and
    // the check that it stays in the directory never fires.
    method FindEntryAt(ent: nat, data: ZipEntry) returns (r: int32)
      requires Valid() && ent < hashTable.Length && hashTable[ent].Name?
      modifies data
      ensures var p := hashTable[ent].name - RECORD_SIZE;
        && 0 <= p <= |directory.bytes|
        && (r == 0 <==> EntryIsSound(file, directory, directoryOffset as int, p))
        && (r == 0 ==> data.Describes(file, directory, p))
        && ErrorMeans(r, file, directory, directoryOffset as int, p, LocalHeaderOffset(directory, p) as nat)
      ensures r == 0 || r == INVALID_OFFSET || r == IO_ERROR || r == INCONSISTENT_INFORMATION
    {
      ghost var j := SlotRecord(ent);
      var nameLen := hashTable[ent].length;
      var p: int := hashTable[ent].name - RECORD_SIZE;
      assert 0 <= p <= |directory.bytes| && nameLen == NameLength(directory, p);
      hide *;
      r := ReadAt(p, nameLen, data);
    }

    // The range check on the pointer, and the rest behind it.
    method ReadAt(ptr: int, nameLen: uint16, data: ZipEntry) returns (r: int32)
      requires 0 <= directoryOffset as int < UINT32_COUNT
      requires 0 <= ptr <= |directory.bytes| ==> nameLen == NameLength(directory, ptr)
      modifies data
      ensures !(0 <= ptr <= |directory.bytes|) ==> r == INVALID_OFFSET && unchanged(data)
      ensures 0 <= ptr <= |directory.bytes| ==>
        && (r == 0 <==> EntryIsSound(file, directory, directoryOffset as int, ptr))
        && (r == 0 ==> data.Describes(file, directory, ptr))
        && ErrorMeans(r, file, directory, directoryOffset as int, ptr, LocalHeaderOffset(directory, ptr) as nat)
      ensures r == 0 || r == INVALID_OFFSET || r == IO_ERROR || r == INCONSISTENT_INFORMATION
    {
      hide EntryIsSound, ErrorMeans;
      if ptr < 0 || ptr > |directory.bytes| { return INVALID_OFFSET; }
      r := ReadEntry(ptr, nameLen, data);
    }

    method ReadEntry(p: nat, nameLen: uint16, data: ZipEntry) returns (r: int32)
      requires nameLen == NameLength(directory, p) && 0 <= directoryOffset as int < UINT32_COUNT
      modifies data
      ensures r == 0 <==> EntryIsSound(file, directory, directoryOffset as int, p)
      ensures r == 0 ==> data.Describes(file, directory, p)
      ensures ErrorMeans(r, file, directory, directoryOffset as int, p, LocalHeaderOffset(directory, p) as nat)
      ensures r == 0 || r == INVALID_OFFSET || r == IO_ERROR || r == INCONSISTENT_INFORMATION
    {
      hide Bit, FileU16, FileU32;
      data.compressionMethod := Method(directory, p);
      data.modTime := ModTime(directory, p) as uint32;
      data.crc32 := Crc(directory, p);
      data.compressedLength := CompressedSize(directory, p);
      data.uncompressedLength := UncompressedSize(directory, p);
      var h := LocalHeaderOffset(directory, p) as nat;
      if h + LOCAL_SIZE >= directoryOffset as int { return INVALID_OFFSET; }
      if h + LOCAL_SIZE > |file| { return IO_ERROR; }
      if FileU32(file, h) != LOCAL_SIGNATURE { return INVALID_OFFSET; }
      if !Bit(FileU16(file, h + 6) as nat, 3) {
        data.hasDataDescriptor := false;
        if data.compressedLength != FileU32(file, h + 18) || data.uncompressedLength != FileU32(file, h + 22)
           || data.crc32 != FileU32(file, h + 14) {
          return INCONSISTENT_INFORMATION;
        }
      } else {
        data.hasDataDescriptor := true;
      }
      if FileU16(file, h + 26) != nameLen { return INCONSISTENT_INFORMATION; }
      var nameOffset := h + LOCAL_SIZE;
      if nameOffset + nameLen as nat > directoryOffset as int { return INVALID_OFFSET; }
      if nameOffset + nameLen as nat > |file| { return IO_ERROR; }
      if NameOf(directory, p) != file[nameOffset..nameOffset + nameLen as nat] { return INCONSISTENT_INFORMATION; }
      var dataOffset := DataOffset(file, h);
      if dataOffset > directoryOffset as int { return INVALID_OFFSET; }
      if dataOffset + data.compressedLength as int > directoryOffset as int { return INVALID_OFFSET; }
      if data.compressionMethod == COMPRESS_STORED && dataOffset + data.uncompressedLength as int > directoryOffset as int {
        return INVALID_OFFSET;
      }
      data.offset := dataOffset as int64;
      return 0;
    }

    // Record j carries the name and its entry can be read.
    ghost predicate ReadableAs(name: Bytes, j: nat)
      reads this
    {
      && j < numEntries as nat && RecordName(directory, j) == name
      && EntryIsSound(file, directory, directoryOffset as int, RecordStart(directory, j))
    }

    // Main result: looking a name up is scanning the records for it.
    method FindEntry(entryName: Bytes, data: ZipEntry) returns (r: int32)
      requires Valid()
      modifies data
      ensures entryName == [] ==> r == INVALID_ENTRY_NAME
      ensures entryName != [] ==> (r == ENTRY_NOT_FOUND <==> !ScanFinds(directory, numEntries as nat, entryName))
      ensures entryName != [] ==> (r == 0 <==> exists j: nat :: ReadableAs(entryName, j))
      ensures r == 0 ==>
        exists j: nat :: ReadableAs(entryName, j) && data.Describes(file, directory, RecordStart(directory, j))
    {
      hide EntryIsSound, ErrorMeans, ZipEntry.Describes, Valid, ReadableAs, ScanFinds, RecordStart, RecordName, LocalHeaderOffset;
      if entryName == [] { return INVALID_ENTRY_NAME; }
      var ent: int64;
      ghost var j: nat;
      ent, j := FindName(entryName);
      if ent < 0 {
        NoneReadable(entryName);
        return ent as int32;
      }
      ghost var p := RecordStart(directory, j);
      assert hashTable[ent].name - RECORD_SIZE == p;
      r := FindEntryAt(ent as nat, data);
      assert r == 0 ==> data.Describes(file, directory, p);
      OneReadable(entryName, j);
      assert r == 0 ==> data.Describes(file, directory, RecordStart(directory, j));
    }

    // The slot of the name, and the record it stands for.
    method FindName(entryName: Bytes) returns (ent: int64, ghost j: nat)
      requires Valid()
      ensures hashTable != null && (ent >= 0 <==> ScanFinds(directory, numEntries as nat, entryName))
      ensures ent < 0 ==> ent == ENTRY_NOT_FOUND as int64
      ensures ent >= 0 ==> (ent as int) < hashTable.Length && hashTable[ent].Name?
      ensures ent >= 0 ==> j < numEntries as nat && RecordName(directory, j) == entryName
      ensures ent >= 0 ==> hashTable[ent].name == RecordStart(directory, j) + RECORD_SIZE
    {
      hide ValidTable, Used, GoodPrefix, IsEntered, ScanFinds, HasName;
      j := 0;
      TableAgreesWithScan(directory, hashTable[..], numEntries as nat, entryName);
      ent := EntryToIndex(directory, hashTable, entryName);
      if ent < 0 { return; }
      j := SlotRecord(ent as nat);
    }

    lemma NoneReadable(entryName: Bytes)
      requires !ScanFinds(directory, numEntries as nat, entryName)
      ensures !exists j: nat :: ReadableAs(entryName, j)
    {
    }

    // The record with the name is the only one, so it can be read or none can.
    lemma OneReadable(entryName: Bytes, j: nat)
      requires Valid() && j < numEntries as nat && RecordName(directory, j) == entryName
      ensures (exists k: nat :: ReadableAs(entryName, k)) <==> ReadableAs(entryName, j)
      ensures ReadableAs(entryName, j) <==> EntryIsSound(file, directory, directoryOffset as int, RecordStart(directory, j))
    {
      NamedOnce(j);
      hide EntryIsSound, Valid;
    }

    lemma NamedOnce(j: nat)
      requires Valid() && j < numEntries as nat
      ensures forall k: nat :: k < numEntries as nat && RecordName(directory, k) == RecordName(directory, j) ==> k == j
    {
      forall k: nat | k < numEntries as nat && k != j ensures RecordName(directory, k) != RecordName(directory, j) {
        assert !NameSeenBefore(directory, k) && !NameSeenBefore(directory, j);
      }
    }
  }
}
