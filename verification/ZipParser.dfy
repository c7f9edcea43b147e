/** Building the name index from the central directory. */
module ZipParser {
  import opened CInt
  import opened ZipCodes
  import opened Bits
  import opened PowerOfTwo
  import opened EntryName
  import opened ZipDirectory
  import opened NameIndex

  // The table entry of record j.
  function EntryOf(d: Directory, j: nat): ZipEntryName {
    Name(RecordStart(d, j) + RECORD_SIZE, NameLength(d, RecordStart(d, j)))
  }

  ghost predicate IsEntered(d: Directory, t: Table, j: nat) {
    exists i: nat :: i < |t| && t[i] == EntryOf(d, j)
  }

  ghost predicate IsRecord(d: Directory, n: nat, e: ZipEntryName) {
    exists j: nat :: j < n && e == EntryOf(d, j)
  }

  // The table holds the first n records, each once, and nothing else.
  ghost predicate Indexes(d: Directory, t: Table, n: nat) {
    && ValidTable(d, t) && Used(t) == n
    && (forall j: nat :: j < n ==> IsEntered(d, t, j))
    && (forall i: nat :: i < |t| && t[i].Name? ==> IsRecord(d, n, t[i]))
  }

  // What a plain scan of the records would find.
  ghost predicate ScanFinds(d: Directory, n: nat, name: Bytes) {
    exists j: nat :: j < n && RecordName(d, j) == name
  }

  // Looking in the table and scanning the records agree.
  lemma TableAgreesWithScan(d: Directory, t: Table, n: nat, name: Bytes)
    requires Indexes(d, t, n)
    ensures HasName(d, t, name) <==> ScanFinds(d, n, name)
  {
    if HasName(d, t, name) {
      var i: nat :| i < |t| && HoldsName(d, t, i, name);
      var j: nat :| j < n && t[i] == EntryOf(d, j);
      assert RecordName(d, j) == name;
    }
    if ScanFinds(d, n, name) {
      var j: nat :| j < n && RecordName(d, j) == name;
      assert IsEntered(d, t, j);
      var i: nat :| i < |t| && t[i] == EntryOf(d, j);
      assert HoldsName(d, t, i, name);
    }
  }

  lemma IndexGrows(d: Directory, t: Table, ent: nat, n: nat)
    requires Indexes(d, t, n) && ent < |t| && t[ent].NoName?
    requires ValidTable(d, t[ent := EntryOf(d, n)])
    ensures Indexes(d, t[ent := EntryOf(d, n)], n + 1)
  {
    var u := t[ent := EntryOf(d, n)];
    InsertCounts(t, ent, EntryOf(d, n));
    hide ValidTable, EntryOf;
    forall j: nat | j < n + 1 ensures IsEntered(d, u, j) {
      if j == n {
        assert u[ent] == EntryOf(d, j);
      } else {
        assert IsEntered(d, t, j);
        var i: nat :| i < |t| && t[i] == EntryOf(d, j);
        if i == ent { EntriesAreNames(d, j); }
        assert u[i] == EntryOf(d, j);
      }
    }
    forall i: nat | i < |u| && u[i].Name? ensures IsRecord(d, n + 1, u[i]) {
      if i == ent {
        assert u[i] == EntryOf(d, n);
      } else {
        assert IsRecord(d, n, t[i]);
        var j: nat :| j < n && t[i] == EntryOf(d, j);
        assert j < n + 1 && u[i] == EntryOf(d, j);
      }
    }
  }

  lemma EntriesAreNames(d: Directory, j: nat)
    ensures EntryOf(d, j).Name?
  {
  }

  // Record i is the first the parser stops at, and it stops there for its name.
  ghost predicate DuplicateAt(d: Directory, directoryOffset: int, i: nat) {
    GoodPrefix(d, directoryOffset, i) && Checked(d, directoryOffset, i) && NameSeenBefore(d, i)
  }

  ghost predicate HasDuplicate(d: Directory, directoryOffset: int, n: nat) {
    exists i: nat :: i < n && DuplicateAt(d, directoryOffset, i)
  }

  // A record that stops the parser decides the outcome alone.
  lemma StopsAt(d: Directory, directoryOffset: int, i: nat, n: nat)
    requires i < n && GoodPrefix(d, directoryOffset, i)
    requires !WellFormed(d, directoryOffset, i) || NameSeenBefore(d, i)
    ensures !GoodPrefix(d, directoryOffset, n)
    ensures HasDuplicate(d, directoryOffset, n) <==> DuplicateAt(d, directoryOffset, i)
  {
    if HasDuplicate(d, directoryOffset, n) {
      var k: nat :| k < n && DuplicateAt(d, directoryOffset, k);
    }
  }

  lemma EmptyPrefix(d: Directory, directoryOffset: int)
    ensures GoodPrefix(d, directoryOffset, 0) && RecordStart(d, 0) == 0
  {
  }

  // What a record says about the rest of the run: it goes on or decides the outcome.
  lemma StopsOrGrows(d: Directory, directoryOffset: int, i: nat, n: nat)
    requires i < n && GoodPrefix(d, directoryOffset, i)
    ensures WellFormed(d, directoryOffset, i) && !NameSeenBefore(d, i) ==> GoodPrefix(d, directoryOffset, i + 1)
    ensures !(WellFormed(d, directoryOffset, i) && !NameSeenBefore(d, i)) ==> !GoodPrefix(d, directoryOffset, n)
    ensures !(WellFormed(d, directoryOffset, i) && !NameSeenBefore(d, i)) ==>
      (HasDuplicate(d, directoryOffset, n) <==> Checked(d, directoryOffset, i) && NameSeenBefore(d, i))
  {
    hide WellFormed, Checked, NameSeenBefore, HasDuplicate;
    if !WellFormed(d, directoryOffset, i) || NameSeenBefore(d, i) { StopsAt(d, directoryOffset, i, n); }
  }

  lemma NoStop(d: Directory, directoryOffset: int, n: nat)
    requires GoodPrefix(d, directoryOffset, n)
    ensures !HasDuplicate(d, directoryOffset, n)
  {
  }

  // On records that are well-formed one by one, only a repeated name is an error.
  lemma OnlyDuplicates(d: Directory, directoryOffset: int, n: nat)
    requires forall i: nat :: i < n ==> WellFormed(d, directoryOffset, i)
    ensures HasDuplicate(d, directoryOffset, n) <==> exists i: nat, j: nat :: j < i < n && RecordName(d, j) == RecordName(d, i)
    ensures GoodPrefix(d, directoryOffset, n) <==> !HasDuplicate(d, directoryOffset, n)
  {
    if exists i: nat :: i < n && NameSeenBefore(d, i) {
      var i: nat :| i < n && NameSeenBefore(d, i);
      var k := FirstSeenBefore(d, i);
      assert WellFormed(d, directoryOffset, k) && DuplicateAt(d, directoryOffset, k);
    }
    if exists i: nat, j: nat :: j < i < n && RecordName(d, j) == RecordName(d, i) {
      var i: nat, j: nat :| j < i < n && RecordName(d, j) == RecordName(d, i);
      assert NameSeenBefore(d, i);
    }
    if HasDuplicate(d, directoryOffset, n) {
      var i: nat :| i < n && DuplicateAt(d, directoryOffset, i);
      var j: nat :| j < i && RecordName(d, j) == RecordName(d, i);
    }
  }

  lemma {:induction false} FirstSeenBefore(d: Directory, i: nat) returns (k: nat)
    requires NameSeenBefore(d, i)
    ensures k <= i && NameSeenBefore(d, k) && forall j: nat :: j < k ==> !NameSeenBefore(d, j)
  {
    if exists j: nat :: j < i && NameSeenBefore(d, j) {
      var j: nat :| j < i && NameSeenBefore(d, j);
      k := FirstSeenBefore(d, j);
    } else {
      k := i;
    }
  }

  // The table size leaves at least one slot empty.
  lemma SizeExceedsEntries(numEntries: nat)
    requires numEntries < 0x1_0000
    ensures numEntries < 1 + numEntries * 4 / 3 <= 0x2_0000 <= Pow2(31)
    ensures IsPowerOf2(0x2_0000)
  {
    WordSizes();
    assert Pow2(17) == 0x2_0000;
  }

  // One turn of the parser's loop, for record i.
  method ParseRecord(d: Directory, directoryOffset: int64, hashTable: array<ZipEntryName>, ptr: nat, ghost i: nat)
    returns (r: int32, next: nat)
    requires ptr == RecordStart(d, i) && Indexes(d, hashTable[..], i) && hashTable.Length > i
    modifies hashTable
    ensures var off := directoryOffset as int;
      && (r == 0 || r == DUPLICATE_ENTRY || r == -1)
      && (r == 0 <==> WellFormed(d, off, i) && !NameSeenBefore(d, i))
      && (r == DUPLICATE_ENTRY <==> Checked(d, off, i) && NameSeenBefore(d, i))
    ensures r == 0 ==> next == RecordStart(d, i + 1) && Indexes(d, hashTable[..], i + 1)
  {
    next := ptr;
    if d.U32(ptr) != RECORD_SIGNATURE { return -1, next; }
    if ptr + RECORD_SIZE > |d.bytes| { return -1, next; }
    if LocalHeaderOffset(d, ptr) as int >= directoryOffset as int { return -1, next; }
    var valid := IsValidEntryName(NameOf(d, ptr));
    if !valid { return -1, next; }
    var entryName := Name(ptr + RECORD_SIZE, NameLength(d, ptr));
    ghost var t := hashTable[..];
    SeenIfEntered(d, t, i);
    hide Used, IsName, NameSeenBefore, Indexes, ValidTable, HasRoom, HasName, BytesOf;
    r, next := AddToHash(d, hashTable, entryName);
    if r != 0 { return; }
    IndexGrows(d, t, next, i);
    next := ptr + RecordLength(d, ptr);
    if next > |d.bytes| { return -1, next; }
  }

  lemma SeenIfEntered(d: Directory, t: Table, i: nat)
    requires Indexes(d, t, i) && i < |t|
    ensures ValidTable(d, t) && HasRoom(t)
    ensures HasName(d, t, BytesOf(d, EntryOf(d, i))) <==> NameSeenBefore(d, i)
  {
    RoomLeft(t);
    TableAgreesWithScan(d, t, i, RecordName(d, i));
  }

  // The parser's loop, from an empty table.
  method ParseRecords(d: Directory, directoryOffset: int64, numEntries: uint16, hashTable: array<ZipEntryName>) returns (r: int32)
    requires Indexes(d, hashTable[..], 0) && hashTable.Length > numEntries as int
    modifies hashTable
    ensures r == 0 || r == DUPLICATE_ENTRY || r == -1
    ensures r == 0 <==> GoodPrefix(d, directoryOffset as int, numEntries as nat)
    ensures r == DUPLICATE_ENTRY <==> HasDuplicate(d, directoryOffset as int, numEntries as nat)
    ensures r == 0 ==> Indexes(d, hashTable[..], numEntries as nat)
  {
    ghost var n, off := numEntries as nat, directoryOffset as int;
    hide Indexes, WellFormed, Checked, NameSeenBefore, HasDuplicate, GoodPrefix, RecordStart, DuplicateAt;
    var ptr := 0;
    EmptyPrefix(d, off);
    for i := 0 to numEntries as int
      invariant ptr == RecordStart(d, i) && GoodPrefix(d, off, i) && Indexes(d, hashTable[..], i)
    {
      var result, next := ParseRecord(d, directoryOffset, hashTable, ptr, i);
      StopsOrGrows(d, off, i, n);
      if result != 0 {
        return result;
      }
      ptr := next;
    }
    NoStop(d, off, n);
    r := 0;
  }

  // Main result: the parser succeeds exactly on well-formed records with distinct names,
  // and then the table is an index of them.
  method ParseZipArchive(d: Directory, directoryOffset: int64, numEntries: uint16)
    returns (r: int32, hashTable: array<ZipEntryName>)
    ensures r == 0 || r == DUPLICATE_ENTRY || r == -1
    ensures r == 0 <==> GoodPrefix(d, directoryOffset as int, numEntries as nat)
    ensures r == DUPLICATE_ENTRY <==> HasDuplicate(d, directoryOffset as int, numEntries as nat)
    ensures r == 0 ==> Indexes(d, hashTable[..], numEntries as nat) && HasRoom(hashTable[..])
    ensures fresh(hashTable)
  {
    SizeExceedsEntries(numEntries as nat);
    var size := RoundUpPower2((1 + numEntries as int * 4 / 3) as uint32);
    hashTable := new ZipEntryName[size as int](i => NoName);
    EmptyTable(d, hashTable[..]);
    hide ValidTable, Used, GoodPrefix, HasDuplicate, IsPowerOf2, Pow2;
    r := ParseRecords(d, directoryOffset, numEntries, hashTable);
    if r == 0 { RoomLeft(hashTable[..]); }
  }
}
