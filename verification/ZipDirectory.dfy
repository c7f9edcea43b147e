/** The bytes of a central directory and the records in them. */
module ZipDirectory {
  import opened CInt
  import opened EntryName

  // The mapped bytes, and whatever memory follows them: the parser looks at a signature
  // and a name before it checks that they lie inside.
  datatype Directory = Directory(bytes: Bytes, beyond: nat -> uint8) {
    function At(p: nat): uint8 {
      if p < |bytes| then bytes[p] else beyond(p - |bytes|)
    }

    function Slice(p: nat, n: nat): Bytes {
      seq(n, i requires 0 <= i < n => At(p + i))
    }

    function U16(p: nat): uint16 {
      (At(p) as int + 0x100 * At(p + 1) as int) as uint16
    }

    function U32(p: nat): uint32 {
      (U16(p) as int + 0x1_0000 * U16(p + 2) as int) as uint32
    }
  }

  // Little-endian fields of a file's bytes, read inside them.
  function FileU16(file: Bytes, p: nat): uint16
    requires p + 2 <= |file|
  {
    (file[p] as int + 0x100 * file[p + 1] as int) as uint16
  }

  function FileU32(file: Bytes, p: nat): uint32
    requires p + 4 <= |file|
  {
    (FileU16(file, p) as int + 0x1_0000 * FileU16(file, p + 2) as int) as uint32
  }

  const RECORD_SIGNATURE: uint32 := 0x02014b50
  const RECORD_SIZE: nat := 46

  // The fixed fields of the record at p that the parser uses.
  function LocalHeaderOffset(d: Directory, p: nat): uint32 { d.U32(p + 42) }
  function NameLength(d: Directory, p: nat): uint16 { d.U16(p + 28) }
  function NameOf(d: Directory, p: nat): Bytes { d.Slice(p + RECORD_SIZE, NameLength(d, p) as nat) }
  function RecordLength(d: Directory, p: nat): nat {
    RECORD_SIZE + NameLength(d, p) as nat + d.U16(p + 30) as nat + d.U16(p + 32) as nat
  }

  // Records follow each other without gaps.
  function RecordStart(d: Directory, i: nat): nat {
    if i == 0 then 0 else RecordStart(d, i - 1) + RecordLength(d, RecordStart(d, i - 1))
  }

  function RecordName(d: Directory, i: nat): Bytes {
    NameOf(d, RecordStart(d, i))
  }

  // What the parser asks of record i before it enters the name ...
  predicate Checked(d: Directory, directoryOffset: int, i: nat) {
    var p := RecordStart(d, i);
    && d.U32(p) == RECORD_SIGNATURE
    && p + RECORD_SIZE <= |d.bytes|
    && (LocalHeaderOffset(d, p) as int) < directoryOffset
    && IsName(NameOf(d, p))
  }

  // ... and after.
  predicate WellFormed(d: Directory, directoryOffset: int, i: nat) {
    Checked(d, directoryOffset, i) && RecordStart(d, i + 1) <= |d.bytes|
  }

  ghost predicate NameSeenBefore(d: Directory, i: nat) {
    exists j: nat :: j < i && RecordName(d, j) == RecordName(d, i)
  }

  // The first n records are well-formed and differ in name.
  ghost predicate GoodPrefix(d: Directory, directoryOffset: int, n: nat) {
    forall j: nat :: j < n ==> WellFormed(d, directoryOffset, j) && !NameSeenBefore(d, j)
  }
}
