/** Reading what was written: every field of every record of an archive file, the directory as a
    whole, and the archive with its entries' data. */
module ZipWritten {
  import opened CInt
  import opened ZipCodes
  import opened Options
  import opened Bits
  import opened EntryName
  import opened ZipFormat
  import opened ZipDirectory
  import opened NameIndex
  import opened ZipParser
  import opened EndOfDirectory
  import opened ZipArchives

  // ---- Numbers

  lemma LeOfTwo(s: Bytes)
    requires |s| == 2
    ensures Le(s) == s[0] as nat + 0x100 * s[1] as nat
  {
    assert s[1..][1..] == [];
    assert Le(s[1..]) == s[1] as nat + 0x100 * Le(s[1..][1..]);
  }

  lemma LeOfFour(s: Bytes)
    requires |s| == 4
    ensures Le(s) == Le(s[..2]) + 0x1_0000 * Le(s[2..])
  {
    LeOfTwo(s[..2]);
    LeOfTwo(s[2..]);
    LeOfTwo(s[2..4]);
    assert s[1..][1..] == s[2..];
  }

  // A number inside the part s of the directory.
  lemma U16Reads(d: Directory, before: Bytes, s: Bytes, after: Bytes, k: nat)
    requires d.bytes == before + s + after && k + 2 <= |s|
    ensures d.U16(|before| + k) as nat == Le(s[k..k + 2])
  {
    LeOfTwo(s[k..k + 2]);
    assert d.At(|before| + k) == s[k] && d.At(|before| + k + 1) == s[k + 1];
  }

  lemma U32Reads(d: Directory, before: Bytes, s: Bytes, after: Bytes, k: nat)
    requires d.bytes == before + s + after && k + 4 <= |s|
    ensures d.U32(|before| + k) as nat == Le(s[k..k + 4])
  {
    U16Reads(d, before, s, after, k);
    U16Reads(d, before, s, after, k + 2);
    LeOfFour(s[k..k + 4]);
    assert s[k..k + 4][..2] == s[k..k + 2] && s[k..k + 4][2..] == s[k + 2..k + 4];
  }

  lemma FileU16Reads(file: Bytes, before: Bytes, s: Bytes, after: Bytes, k: nat)
    requires file == before + s + after && k + 2 <= |s|
    ensures FileU16(file, |before| + k) as nat == Le(s[k..k + 2])
  {
    LeOfTwo(s[k..k + 2]);
    assert file[|before| + k] == s[k] && file[|before| + k + 1] == s[k + 1];
  }

  lemma FileU32Reads(file: Bytes, before: Bytes, s: Bytes, after: Bytes, k: nat)
    requires file == before + s + after && k + 4 <= |s|
    ensures FileU32(file, |before| + k) as nat == Le(s[k..k + 4])
  {
    FileU16Reads(file, before, s, after, k);
    FileU16Reads(file, before, s, after, k + 2);
    LeOfFour(s[k..k + 4]);
    assert s[k..k + 4][..2] == s[k..k + 2] && s[k..k + 4][2..] == s[k + 2..k + 4];
  }

  lemma LeIsInjective(s: Bytes, t: Bytes)
    requires |s| == |t| && Le(s) == Le(t)
    ensures s == t
  {
    if s != [] {
      LeIsInjective(s[1..], t[1..]);
      assert s == [s[0]] + s[1..] && t == [t[0]] + t[1..];
    }
  }

  lemma Signatures()
    ensures Le([0x50, 0x4b, 1, 2]) == RECORD_SIGNATURE as nat
    ensures Le([0x50, 0x4b, 3, 4]) == LOCAL_SIGNATURE as nat
    ensures Le([0x50, 0x4b, 5, 6]) == EOCD_SIGNATURE as nat
  {
    var r: Bytes, l: Bytes, e: Bytes := [0x50, 0x4b, 1, 2], [0x50, 0x4b, 3, 4], [0x50, 0x4b, 5, 6];
    LeOfFour(r);
    LeOfFour(l);
    LeOfFour(e);
    LeOfTwo(r[..2]);
    LeOfTwo(l[..2]);
    LeOfTwo(e[..2]);
    LeOfTwo(r[2..]);
    LeOfTwo(l[2..]);
    LeOfTwo(e[2..]);
  }

  // A signature is its four bytes.
  lemma SignatureBytes(s: Bytes, signature: Bytes)
    requires |s| == |signature| == 4
    ensures Le(s) == Le(signature) <==> s == signature
  {
    if Le(s) == Le(signature) { LeIsInjective(s, signature); }
  }

  // ---- The central directory

  // Every field of a record that is read stands where the format puts it.
  lemma HeadNumbers(d: Directory, before: Bytes, head: Bytes, after: Bytes)
    requires d.bytes == before + head + after && |head| == 46
    ensures var p := |before|;
      && d.U32(p) as nat == Le(head[..4])
      && Method(d, p) as nat == Le(head[10..12]) && ModTime(d, p) as nat == Le(head[12..14])
      && Crc(d, p) as nat == Le(head[16..20]) && LocalHeaderOffset(d, p) as nat == Le(head[42..46])
  {
    hide Le;
    assert head[0..4] == head[..4];
    U32Reads(d, before, head, after, 0);
    U16Reads(d, before, head, after, 10);
    U16Reads(d, before, head, after, 12);
    U32Reads(d, before, head, after, 16);
    U32Reads(d, before, head, after, 42);
    hide Directory.U16, Directory.U32;
  }

  lemma HeadLengths(d: Directory, before: Bytes, head: Bytes, after: Bytes)
    requires d.bytes == before + head + after && |head| == 46
    ensures var p := |before|;
      && CompressedSize(d, p) as nat == Le(head[20..24]) && UncompressedSize(d, p) as nat == Le(head[24..28])
      && NameLength(d, p) as nat == Le(head[28..30])
      && RecordLength(d, p) == 46 + Le(head[28..30]) + Le(head[30..32]) + Le(head[32..34])
  {
    hide Le;
    U32Reads(d, before, head, after, 20);
    U32Reads(d, before, head, after, 24);
    U16Reads(d, before, head, after, 28);
    U16Reads(d, before, head, after, 30);
    U16Reads(d, before, head, after, 32);
    hide Directory.U16, Directory.U32;
  }

  // What the record at p says is what c says.
  ghost predicate ReadsAs(d: Directory, p: nat, c: Central)
    requires |c.head| == 46
  {
    && d.U32(p) == RECORD_SIGNATURE
    && Method(d, p) as nat == Le(c.head[10..12]) && ModTime(d, p) as nat == Le(c.head[12..14])
    && Crc(d, p) as nat == Le(c.head[16..20])
    && CompressedSize(d, p) as nat == Le(c.head[20..24]) && UncompressedSize(d, p) as nat == Le(c.head[24..28])
    && LocalHeaderOffset(d, p) as nat == Le(c.head[42..46])
    && NameLength(d, p) as nat == |c.name| && NameOf(d, p) == c.name
    && RecordLength(d, p) == |WriteCentral(c)|
  }

  lemma CentralReads(d: Directory, before: Bytes, c: Central, after: Bytes)
    requires d.bytes == before + WriteCentral(c) + after && IsCentral(c)
    ensures ReadsAs(d, |before|, c)
  {
    Signatures();
    Regroup(before, c.head, c.name, c.extra, c.comment, after);
    hide Le;
    HeadNumbers(d, before, c.head, c.name + (c.extra + c.comment + after));
    HeadLengths(d, before, c.head, c.name + (c.extra + c.comment + after));
    SliceReads(d, before + c.head, c.name, c.extra + c.comment + after);
    hide NameLength, RecordLength, Method, ModTime, Crc, CompressedSize, UncompressedSize, LocalHeaderOffset,
      Directory.U16, Directory.U32, Directory.Slice;
  }

  lemma Regroup(before: Bytes, head: Bytes, name: Bytes, extra: Bytes, last: Bytes, after: Bytes)
    ensures before + (head + name + extra + last) + after == before + head + (name + (extra + last + after))
    ensures before + (head + name + extra + last) + after == (before + head) + name + (extra + last + after)
    ensures |head + name + extra + last| == |head| + |name| + |extra| + |last|
  {
  }

  lemma SliceReads(d: Directory, before: Bytes, s: Bytes, after: Bytes)
    requires d.bytes == before + s + after
    ensures d.Slice(|before|, |s|) == s
  {
    var slice := d.Slice(|before|, |s|);
    forall i | 0 <= i < |s| ensures slice[i] == s[i] {
      assert d.At(|before| + i) == d.bytes[|before| + i];
    }
  }

  lemma {:induction false} WriteOneMore(cs: seq<Central>, c: Central)
    ensures WriteDirectory(cs + [c]) == WriteDirectory(cs) + WriteCentral(c)
  {
    hide WriteCentral;
    if cs == [] {
      assert cs + [c] == [c];
    } else {
      WriteOneMore(cs[1..], c);
      assert (cs + [c])[1..] == cs[1..] + [c];
    }
  }

  lemma {:induction false} WriteSplits(cs: seq<Central>, i: nat)
    requires i <= |cs|
    ensures WriteDirectory(cs) == WriteDirectory(cs[..i]) + WriteDirectory(cs[i..])
  {
    hide WriteCentral;
    if i == 0 {
      assert cs[..0] == [] && cs[0..] == cs;
    } else {
      WriteSplits(cs[1..], i - 1);
      assert cs[..i][1..] == cs[1..][..i - 1] && cs[1..][i - 1..] == cs[i..];
    }
  }

  lemma WriteUpTo(cs: seq<Central>, i: nat)
    requires i < |cs|
    ensures WriteDirectory(cs[..i + 1]) == WriteDirectory(cs[..i]) + WriteCentral(cs[i])
  {
    assert cs[..i + 1] == cs[..i] + [cs[i]];
    hide WriteDirectory, WriteCentral;
    WriteOneMore(cs[..i], cs[i]);
  }

  lemma WriteAround(cs: seq<Central>, i: nat)
    requires i < |cs|
    ensures WriteDirectory(cs) == WriteDirectory(cs[..i]) + WriteCentral(cs[i]) + WriteDirectory(cs[i + 1..])
    ensures WriteDirectory(cs[..i + 1]) == WriteDirectory(cs[..i]) + WriteCentral(cs[i])
  {
    hide WriteDirectory, WriteCentral;
    WriteUpTo(cs, i);
    WriteSplits(cs, i + 1);
  }

  // Record i of a written directory starts after the ones before it, and says what was written.
  lemma {:induction false} DirectoryReads(d: Directory, cs: seq<Central>, i: nat)
    requires d.bytes == WriteDirectory(cs) && AreCentral(cs) && i < |cs|
    ensures RecordStart(d, i) == |WriteDirectory(cs[..i])| && ReadsAs(d, RecordStart(d, i), cs[i])
    ensures RecordStart(d, i + 1) == |WriteDirectory(cs[..i + 1])| <= |d.bytes|
    decreases i
  {
    hide ReadsAs, WriteCentral;
    WriteAround(cs, i);
    if i > 0 {
      DirectoryReads(d, cs, i - 1);
      assert cs[..i - 1 + 1] == cs[..i];
    } else {
      assert cs[..0] == [];
    }
    hide WriteDirectory;
    CentralReads(d, WriteDirectory(cs[..i]), cs[i], WriteDirectory(cs[i + 1..]));
    LengthReads(d, |WriteDirectory(cs[..i])|, cs[i]);
  }

  lemma LengthReads(d: Directory, p: nat, c: Central)
    requires |c.head| == 46 && ReadsAs(d, p, c)
    ensures RecordLength(d, p) == |WriteCentral(c)| && NameOf(d, p) == c.name
    ensures d.U32(p) == RECORD_SIGNATURE && LocalHeaderOffset(d, p) as nat == Le(c.head[42..46])
    ensures NameLength(d, p) as nat == |c.name|
  {
  }

  // ---- Parsing what was written

  // Record i has a name of its own, a valid one, and an offset before the directory's.
  ghost predicate IsGood(cs: seq<Central>, directoryOffset: int, i: nat)
    requires i < |cs| && |cs[i].head| == 46
  {
    Le(cs[i].head[42..46]) < directoryOffset && IsEntryName(cs[i].name) && !Repeats(cs, i)
  }

  ghost predicate Repeats(cs: seq<Central>, i: nat)
    requires i < |cs|
  {
    exists j: nat :: j < i && cs[j].name == cs[i].name
  }

  lemma WrittenNames(d: Directory, cs: seq<Central>, i: nat)
    requires d.bytes == WriteDirectory(cs) && AreCentral(cs) && i < |cs|
    ensures RecordName(d, i) == cs[i].name
    ensures NameSeenBefore(d, i) <==> Repeats(cs, i)
  {
    forall j: nat | j <= i ensures RecordName(d, j) == cs[j].name {
      DirectoryReads(d, cs, j);
      LengthReads(d, RecordStart(d, j), cs[j]);
      hide *;
    }
    hide WriteDirectory, RecordName;
  }

  lemma WrittenIsChecked(d: Directory, cs: seq<Central>, directoryOffset: int, i: nat)
    requires d.bytes == WriteDirectory(cs) && AreCentral(cs) && i < |cs|
    ensures Checked(d, directoryOffset, i) <==> Le(cs[i].head[42..46]) < directoryOffset && IsEntryName(cs[i].name)
    ensures WellFormed(d, directoryOffset, i) <==> Checked(d, directoryOffset, i)
  {
    DirectoryReads(d, cs, i);
    LengthReads(d, RecordStart(d, i), cs[i]);
    WrittenFits(cs, i);
    NameIsParts(cs[i].name);
    hide RecordStart, ReadsAs, WriteDirectory, WriteCentral, IsEntryName, IsName, Le, NameOf, NameLength, LocalHeaderOffset,
      Directory.U32;
  }

  lemma WrittenIsGood(d: Directory, cs: seq<Central>, directoryOffset: int, i: nat)
    requires d.bytes == WriteDirectory(cs) && AreCentral(cs) && i < |cs|
    ensures WellFormed(d, directoryOffset, i) && !NameSeenBefore(d, i) <==> IsGood(cs, directoryOffset, i)
    ensures Checked(d, directoryOffset, i) <==> Le(cs[i].head[42..46]) < directoryOffset && IsEntryName(cs[i].name)
    ensures NameSeenBefore(d, i) <==> Repeats(cs, i)
    ensures RecordName(d, i) == cs[i].name
  {
    WrittenNames(d, cs, i);
    WrittenIsChecked(d, cs, directoryOffset, i);
    hide WellFormed, Checked, NameSeenBefore, Repeats, RecordName, WriteDirectory, IsEntryName, Le;
  }

  lemma WrittenFits(cs: seq<Central>, i: nat)
    requires AreCentral(cs) && i < |cs|
    ensures |WriteDirectory(cs[..i])| + 46 <= |WriteDirectory(cs)|
  {
    WriteAround(cs, i);
    hide WriteDirectory;
  }

  // Every record before n is good.
  ghost predicate AreGood(cs: seq<Central>, directoryOffset: int, n: nat)
    requires n <= |cs| && AreCentral(cs)
  {
    forall j: nat :: j < n ==> IsGood(cs, directoryOffset, j)
  }

  ghost predicate RefusedForName(cs: seq<Central>, directoryOffset: int, i: nat)
    requires i < |cs| && AreCentral(cs)
  {
    && AreGood(cs, directoryOffset, i)
    && Le(cs[i].head[42..46]) < directoryOffset && IsEntryName(cs[i].name) && Repeats(cs, i)
  }

  ghost predicate IsRefusedForName(cs: seq<Central>, directoryOffset: int)
    requires AreCentral(cs)
  {
    exists i: nat :: i < |cs| && RefusedForName(cs, directoryOffset, i)
  }

  // Main result: a directory written out from a list of records is parsed to those records. It
  // is accepted exactly when all of them are good, and refused for a duplicate exactly when the
  // first that is not repeats a name; and then a name is found exactly when a record has it.
  method ParseWritten(cs: seq<Central>, beyond: nat -> uint8, directoryOffset: int64)
    returns (r: int32, d: Directory, hashTable: array<ZipEntryName>)
    requires AreCentral(cs) && |cs| < 0x1_0000
    ensures d == Directory(WriteDirectory(cs), beyond)
    ensures r == 0 <==> AreGood(cs, directoryOffset as int, |cs|)
    ensures r == DUPLICATE_ENTRY <==> IsRefusedForName(cs, directoryOffset as int)
    ensures r == 0 ==> Indexes(d, hashTable[..], |cs|)
    ensures r == 0 ==> forall name :: HasName(d, hashTable[..], name) <==> exists i: nat :: i < |cs| && cs[i].name == name
  {
    d := Directory(WriteDirectory(cs), beyond);
    ghost var off := directoryOffset as int;
    WrittenOutcome(d, cs, off);
    hide GoodPrefix, HasDuplicate, AreGood, IsRefusedForName, WriteDirectory, Indexes, HasRoom;
    r, hashTable := ParseZipArchive(d, directoryOffset, |cs| as uint16);
    if r == 0 {
      forall name ensures HasName(d, hashTable[..], name) <==> exists i: nat :: i < |cs| && cs[i].name == name {
        TableAgreesWithScan(d, hashTable[..], |cs|, name);
        ScanOfWritten(d, cs, off, name);
      }
    }
  }

  lemma PrefixOfWritten(d: Directory, cs: seq<Central>, directoryOffset: int, n: nat)
    requires d.bytes == WriteDirectory(cs) && AreCentral(cs) && n <= |cs|
    ensures GoodPrefix(d, directoryOffset, n) <==> AreGood(cs, directoryOffset, n)
  {
    forall j: nat | j < n
      ensures WellFormed(d, directoryOffset, j) && !NameSeenBefore(d, j) <==> IsGood(cs, directoryOffset, j)
    {
      WrittenIsGood(d, cs, directoryOffset, j);
    }
    hide WellFormed, NameSeenBefore, IsGood;
  }

  lemma WrittenOutcome(d: Directory, cs: seq<Central>, directoryOffset: int)
    requires d.bytes == WriteDirectory(cs) && AreCentral(cs)
    ensures GoodPrefix(d, directoryOffset, |cs|) <==> AreGood(cs, directoryOffset, |cs|)
    ensures HasDuplicate(d, directoryOffset, |cs|) <==> IsRefusedForName(cs, directoryOffset)
  {
    PrefixOfWritten(d, cs, directoryOffset, |cs|);
    forall i: nat | i < |cs| ensures DuplicateAt(d, directoryOffset, i) <==> RefusedForName(cs, directoryOffset, i) {
      PrefixOfWritten(d, cs, directoryOffset, i);
      WrittenIsGood(d, cs, directoryOffset, i);
      hide GoodPrefix, AreGood, Checked, NameSeenBefore, Repeats, WriteDirectory, WellFormed, IsGood;
    }
    hide DuplicateAt, RefusedForName, GoodPrefix, AreGood, WriteDirectory;
  }

  lemma ScanOfWritten(d: Directory, cs: seq<Central>, directoryOffset: int, name: Bytes)
    requires d.bytes == WriteDirectory(cs) && AreCentral(cs)
    ensures ScanFinds(d, |cs|, name) <==> exists i: nat :: i < |cs| && cs[i].name == name
  {
    forall i: nat | i < |cs| ensures RecordName(d, i) == cs[i].name { WrittenIsGood(d, cs, directoryOffset, i); }
    hide RecordName, WriteDirectory;
  }

  // ---- Local headers

  lemma ThirdBit(x: nat)
    ensures Bit(x, 3) <==> x / 8 % 2 == 1
  {
    assert Bit(x, 3) == Bit(x / 2, 2) == Bit(x / 2 / 2, 1) == Bit(x / 2 / 2 / 2, 0);
  }

  lemma LocalNumbers(file: Bytes, before: Bytes, head: Bytes, after: Bytes)
    requires file == before + head + after && |head| == 30
    ensures var h := |before|;
      && FileU32(file, h) as nat == Le(head[..4]) && FileU16(file, h + 6) as nat == Le(head[6..8])
      && FileU32(file, h + 14) as nat == Le(head[14..18]) && FileU32(file, h + 18) as nat == Le(head[18..22])
      && FileU32(file, h + 22) as nat == Le(head[22..26])
      && FileU16(file, h + 26) as nat == Le(head[26..28]) && FileU16(file, h + 28) as nat == Le(head[28..30])
  {
    hide Le;
    assert head[0..4] == head[..4];
    FileU32Reads(file, before, head, after, 0);
    FileU16Reads(file, before, head, after, 6);
    FileU32Reads(file, before, head, after, 14);
    FileU32Reads(file, before, head, after, 18);
    FileU32Reads(file, before, head, after, 22);
    FileU16Reads(file, before, head, after, 26);
    FileU16Reads(file, before, head, after, 28);
    hide FileU16, FileU32;
  }

  lemma SliceOfSlice(s: Bytes, a: nat, b: nat, i: nat, j: nat)
    requires a <= b <= |s| && i <= j <= b - a
    ensures s[a..b][i..j] == s[a + i..a + j]
  {
    var t, u := s[a..b][i..j], s[a + i..a + j];
    forall n | 0 <= n < j - i ensures t[n] == u[n] { assert t[n] == s[a..b][i + n] == s[a + i + n]; }
  }

  // The checksum and both sizes are twelve bytes of either header.
  lemma SameTwelve(local: Bytes, central: Bytes)
    requires |local| == 30 && |central| == 46
    ensures local[14..26] == central[16..28] <==>
      && Le(local[14..18]) == Le(central[16..20]) && Le(local[18..22]) == Le(central[20..24])
      && Le(local[22..26]) == Le(central[24..28])
  {
    var s, t := local[14..26], central[16..28];
    SliceOfSlice(local, 14, 26, 4, 8);
    SliceOfSlice(central, 16, 28, 4, 8);
    assert s[..4] == local[14..18] && s[8..] == local[22..26];
    assert t[..4] == central[16..20] && t[8..] == central[24..28];
    assert s == s[..4] + s[4..8] + s[8..] && t == t[..4] + t[4..8] + t[8..];
    hide Le;
    SignatureBytes(s[..4], t[..4]);
    SignatureBytes(s[4..8], t[4..8]);
    SignatureBytes(s[8..], t[8..]);
  }

  // The header at h is l's, and the data it leads to l's data.
  lemma LocalReads(file: Bytes, d: Directory, p: nat, before: Bytes, l: Local, c: Central, after: Bytes)
    requires file == before + WriteLocal(l) + after && IsHeader(l)
    requires |c.head| == 46 && ReadsAs(d, p, c)
    ensures var h := |before|;
      && h + 30 + |l.name| + |l.extra| + |l.data| <= |file|
      && DataOffset(file, h) == h + 30 + |l.name| + |l.extra|
      && file[DataOffset(file, h)..] == l.data + after
      && (Bit(FileU16(file, h + 6) as nat, 3) <==> Le(l.head[6..8]) / 8 % 2 == 1)
      && (HeaderAgrees(file, d, p, h) <==> Agrees(l, c))
  {
    DataReads(file, before, l, after);
    HeaderReads(file, d, p, before, l, c, after);
    hide *;
  }

  lemma LocalFields(file: Bytes, before: Bytes, l: Local, after: Bytes)
    requires file == before + WriteLocal(l) + after && |l.head| == 30
    ensures var h, head := |before|, l.head;
      && h + 30 + |l.name| <= |file| && file[h + 30..h + 30 + |l.name|] == l.name
      && FileU32(file, h) as nat == Le(head[..4]) && FileU16(file, h + 6) as nat == Le(head[6..8])
      && FileU32(file, h + 14) as nat == Le(head[14..18]) && FileU32(file, h + 18) as nat == Le(head[18..22])
      && FileU32(file, h + 22) as nat == Le(head[22..26])
      && FileU16(file, h + 26) as nat == Le(head[26..28]) && FileU16(file, h + 28) as nat == Le(head[28..30])
  {
    LocalBytes(file, before, l, after);
    Regroup(before, l.head, l.name, l.extra, l.data, after);
    LocalNumbers(file, before, l.head, l.name + (l.extra + l.data + after));
    hide Le, FileU16, FileU32, WriteLocal;
  }

  lemma DataReads(file: Bytes, before: Bytes, l: Local, after: Bytes)
    requires file == before + WriteLocal(l) + after && IsHeader(l)
    ensures var h := |before|;
      && h + 30 + |l.name| + |l.extra| + |l.data| <= |file|
      && DataOffset(file, h) == h + 30 + |l.name| + |l.extra|
      && file[DataOffset(file, h)..] == l.data + after
      && (Bit(FileU16(file, h + 6) as nat, 3) <==> Le(l.head[6..8]) / 8 % 2 == 1)
  {
    LocalBytes(file, before, l, after);
    LocalFields(file, before, l, after);
    ThirdBit(Le(l.head[6..8]));
    hide Le, Bit, FileU16, FileU32, WriteLocal;
  }

  lemma HeaderReads(file: Bytes, d: Directory, p: nat, before: Bytes, l: Local, c: Central, after: Bytes)
    requires file == before + WriteLocal(l) + after && IsHeader(l)
    requires |c.head| == 46 && ReadsAs(d, p, c)
    ensures |before| + 30 <= |file| && (HeaderAgrees(file, d, p, |before|) <==> Agrees(l, c))
  {
    LocalFields(file, before, l, after);
    LocalSignature(l.head);
    ThirdBit(Le(l.head[6..8]));
    SameTwelve(l.head, c.head);
    hide Le, Bit, FileU16, FileU32, WriteLocal, WriteCentral, RecordLength, LocalHeaderOffset, Method, ModTime, Directory.U32,
      NameOf, NameLength, Crc, CompressedSize, UncompressedSize;
  }

  lemma LocalSignature(head: Bytes)
    requires |head| >= 4
    ensures Le(head[..4]) == LOCAL_SIGNATURE as nat <==> head[..4] == [0x50, 0x4b, 3, 4]
  {
    Signatures();
    SignatureBytes(head[..4], [0x50, 0x4b, 3, 4]);
    hide Le;
  }

  lemma LocalBytes(file: Bytes, before: Bytes, l: Local, after: Bytes)
    requires file == before + WriteLocal(l) + after && |l.head| == 30
    ensures var n := |before| + 30;
      && n + |l.name| + |l.extra| + |l.data| <= |file| && file[n..n + |l.name|] == l.name
      && file[n + |l.name| + |l.extra|..] == l.data + after
  {
  }

  // ---- The end record

  lemma EndSignature(file: Bytes, i: nat)
    requires i + 4 <= |file|
    ensures SignatureAt(file, i) <==> EndSignatureAt(file, i)
  {
    assert file == file[..i] + file[i..i + 4] + file[i + 4..];
    FileU32Reads(file, file[..i], file[i..i + 4], file[i + 4..], 0);
    assert file[i..i + 4][0..4] == file[i..i + 4];
    Signatures();
    SignatureBytes(file[i..i + 4], [0x50, 0x4b, 5, 6]);
    hide Le;
  }

  lemma EndReads(file: Bytes, before: Bytes, e: End, count: nat, size: nat, start: nat)
    requires file == before + (e.head + e.comment) && IsEnd(e, count, size, start)
    ensures var at := |before|;
      && at + EOCD_SIZE + |e.comment| == |file|
      && SignatureAt(file, at) && FileU16(file, at + 20) as nat == |e.comment|
      && NumRecords(file, at) as nat == count && DirectorySize(file, at) as nat == size
      && DirectoryStart(file, at) as nat == start
  {
    hide Le;
    assert file == before + e.head + e.comment;
    FileU16Reads(file, before, e.head, e.comment, 10);
    FileU32Reads(file, before, e.head, e.comment, 12);
    FileU32Reads(file, before, e.head, e.comment, 16);
    FileU16Reads(file, before, e.head, e.comment, 20);
    EndSignature(file, |before|);
    assert file[|before|..|before| + 4] == e.head[..4];
    hide FileU16, FileU32;
  }

  // ---- The whole archive

  lemma ArchiveEnds(file: Bytes, body: Bytes, ls: seq<Local>, cs: seq<Central>, e: End)
    requires IsArchive(file, body, ls, cs, e)
    ensures var at := |body| + |WriteDirectory(cs)|;
      && IsLastRecord(file, at) && NumRecords(file, at) as nat == |cs|
      && DirectorySize(file, at) as nat == |WriteDirectory(cs)| && DirectoryStart(file, at) as nat == |body|
  {
    hide WriteDirectory, EndSignatureAt, SignatureAt;
    EndReads(file, body + WriteDirectory(cs), e, |cs|, |WriteDirectory(cs)|, |body|);
    forall j: nat | |body| + |WriteDirectory(cs)| < j <= |file| - EOCD_SIZE ensures !SignatureAt(file, j) {
      EndSignature(file, j);
      assert !EndSignatureAt(file, j);
    }
  }

  lemma ArchiveIsGood(body: Bytes, ls: seq<Local>, cs: seq<Central>, n: nat)
    requires |ls| == |cs| && AreCentral(cs) && Distinct(cs) && n <= |cs|
    requires forall i :: 0 <= i < |cs| ==> IsLocal(ls[i], cs[i]) && IsPlaced(body, ls[i], cs[i]) && IsEntryName(cs[i].name)
    ensures AreGood(cs, |body|, n)
  {
    hide IsEntryName, Le, Agrees;
    forall j: nat | j < n ensures IsGood(cs, |body|, j) {
      assert IsLocal(ls[j], cs[j]) && IsPlaced(body, ls[j], cs[j]) && IsEntryName(cs[j].name);
      assert |WriteLocal(ls[j])| >= 30;
    }
  }

  // The archive's file opens, if its directory can be mapped.
  lemma ArchiveOpens(file: Bytes, body: Bytes, ls: seq<Local>, cs: seq<Central>, e: End, mapFile: (nat, nat) -> Option<Directory>)
    requires IsArchive(file, body, ls, cs, e) && MapsFile(file, mapFile)
    requires mapFile(|body|, |WriteDirectory(cs)|).Some?
    ensures var at := |body| + |WriteDirectory(cs)|; IsLastRecord(file, at) && Opens(file, at, mapFile)
    ensures mapFile(|body|, |WriteDirectory(cs)|).value.bytes == WriteDirectory(cs)
  {
    ArchiveEnds(file, body, ls, cs, e);
    ArchiveIsGood(body, ls, cs, |cs|);
    DirectoryIsMapped(file, body, ls, cs, e, mapFile);
    PrefixOfWritten(mapFile(|body|, |WriteDirectory(cs)|).value, cs, |body|, |cs|);
    DivisionIsUnique(|body| + |WriteDirectory(cs)|, UINT32_COUNT, 0, |body| + |WriteDirectory(cs)|);
    hide WriteDirectory, IsLastRecord, AreGood, GoodPrefix, NumRecords, DirectorySize, DirectoryStart, MapsFile;
  }

  lemma DirectoryIsMapped(file: Bytes, body: Bytes, ls: seq<Local>, cs: seq<Central>, e: End,
                          mapFile: (nat, nat) -> Option<Directory>)
    requires IsArchive(file, body, ls, cs, e) && MapsFile(file, mapFile)
    requires mapFile(|body|, |WriteDirectory(cs)|).Some?
    ensures mapFile(|body|, |WriteDirectory(cs)|).value.bytes == WriteDirectory(cs)
  {
    MiddleIs(body, WriteDirectory(cs), e.head + e.comment);
    hide WriteDirectory;
  }

  lemma MiddleIs(a: Bytes, b: Bytes, c: Bytes)
    ensures (a + b + c)[|a|..|a| + |b|] == b
  {
  }

  // The data stands at this place of the file.
  predicate LeadsTo(file: Bytes, at: int, data: Bytes) {
    0 <= at && at + |data| <= |file| && file[at..at + |data|] == data
  }

  lemma AroundPart(file: Bytes, body: Bytes, rest: Bytes, at: nat, part: Bytes)
    requires file == body + rest && at + |part| <= |body| && body[at..at + |part|] == part
    ensures file == body[..at] + part + (body[at + |part|..] + rest)
  {
  }

  lemma SuffixLeads(file: Bytes, at: nat, data: Bytes, after: Bytes)
    requires at <= |file| && file[at..] == data + after
    ensures LeadsTo(file, at, data)
  {
    assert file[at..][..|data|] == data;
  }

  // The entry of record k can be read, and its data is where the header leads.
  lemma EntryReads(file: Bytes, body: Bytes, rest: Bytes, d: Directory, p: nat, l: Local, c: Central)
    requires file == body + rest && IsLocal(l, c) && IsPlaced(body, l, c) && c.name != [] && ReadsAs(d, p, c)
    ensures EntryIsSound(file, d, |body|, p)
    ensures LeadsTo(file, DataOffset(file, LocalHeaderOffset(d, p) as nat), l.data)
  {
    var h := Le(c.head[42..46]);
    var n := |WriteLocal(l)|;
    AroundPart(file, body, rest, h, WriteLocal(l));
    LocalReads(file, d, p, body[..h], l, c, body[h + n..] + rest);
    assert n == 30 + |l.name| + |l.extra| + |l.data|;
    SuffixLeads(file, DataOffset(file, h), l.data, body[h + n..] + rest);
    hide LeadsTo, Le, WriteLocal, WriteCentral, HeaderAgrees, Agrees, DataOffset, Method, CompressedSize, UncompressedSize, LocalHeaderOffset,
      NameLength, RecordLength, NameOf, Crc, ModTime, Directory.U32;
  }

  // The archive is open on the written directory.
  ghost predicate IsOpenOn(archive: ZipArchive, body: Bytes, cs: seq<Central>)
    reads archive
  {
    && archive.directory.bytes == WriteDirectory(cs)
    && archive.numEntries as nat == |cs| && archive.directoryOffset as int == |body|
  }

  method OpenWritten(archive: ZipArchive, mapFile: (nat, nat) -> Option<Directory>,
                     ghost body: Bytes, ghost ls: seq<Local>, ghost cs: seq<Central>, ghost e: End) returns (r: int32)
    requires IsArchive(archive.file, body, ls, cs, e) && MapsFile(archive.file, mapFile)
    requires mapFile(|body|, |WriteDirectory(cs)|).Some?
    modifies archive
    ensures r == 0 && archive.Valid() && IsOpenOn(archive, body, cs)
  {
    hide WriteDirectory, IsArchive, MapsFile;
    ghost var file, at := archive.file, |body| + |WriteDirectory(cs)|;
    ArchiveOpens(file, body, ls, cs, e, mapFile);
    ArchiveEnds(file, body, ls, cs, e);
    ArchiveFits(file, body, ls, cs, e);
    forall f: int | IsLastRecord(file, f) ensures f == at { LastRecordIsUnique(file, at, f); }
    hide IsLastRecord, Opens, IsStretch, ZipArchive.Valid, NumRecords, DirectoryStart, DirectorySize;
    r := archive.OpenArchiveInternal(mapFile);
    assert archive.IsOpenAt(at, mapFile);
  }

  lemma ArchiveFits(file: Bytes, body: Bytes, ls: seq<Local>, cs: seq<Central>, e: End)
    requires IsArchive(file, body, ls, cs, e)
    ensures |file| < UINT32_COUNT && |body| + |WriteDirectory(cs)| + EOCD_SIZE <= |file|
  {
  }

  // What holds of one entry of an archive.
  lemma ArchivePart(file: Bytes, body: Bytes, ls: seq<Local>, cs: seq<Central>, e: End, k: nat)
    requires IsArchive(file, body, ls, cs, e) && k < |cs|
    ensures AreCentral(cs) && IsCentral(cs[k]) && |ls| == |cs|
    ensures IsLocal(ls[k], cs[k]) && IsPlaced(body, ls[k], cs[k])
    ensures file == body + (WriteDirectory(cs) + (e.head + e.comment))
  {
    hide WriteDirectory, IsPlaced, IsLocal, IsCentral, IsEntryName, IsEnd, Distinct, EndSignatureAt;
    Associates(body, WriteDirectory(cs), e.head + e.comment);
  }

  lemma Associates(a: Bytes, b: Bytes, c: Bytes)
    ensures a + b + c == a + (b + c)
  {
  }

  // Record k of the archive reads as written, and leads to its entry's data.
  lemma WrittenReads(file: Bytes, d: Directory, body: Bytes, ls: seq<Local>, cs: seq<Central>, e: End, k: nat)
    requires IsArchive(file, body, ls, cs, e) && d.bytes == WriteDirectory(cs) && k < |cs| && cs[k].name != []
    ensures |ls| == |cs| && IsCentral(cs[k])
    ensures ReadsAs(d, RecordStart(d, k), cs[k]) && EntryIsSound(file, d, |body|, RecordStart(d, k))
    ensures LeadsTo(file, DataOffset(file, LocalHeaderOffset(d, RecordStart(d, k)) as nat), ls[k].data)
  {
    hide IsArchive, IsLocal, IsPlaced, ReadsAs, WriteDirectory, EntryIsSound, LocalHeaderOffset, RecordStart, Le;
    ArchivePart(file, body, ls, cs, e, k);
    DirectoryReads(d, cs, k);
    EntryReads(file, body, WriteDirectory(cs) + (e.head + e.comment), d, RecordStart(d, k), ls[k], cs[k]);
  }

  lemma OneWritten(archive: ZipArchive, body: Bytes, ls: seq<Local>, cs: seq<Central>, e: End, k: nat, j: nat)
    requires IsArchive(archive.file, body, ls, cs, e) && IsOpenOn(archive, body, cs) && k < |cs| && cs[k].name != []
    ensures archive.ReadableAs(cs[k].name, j) <==> j == k
  {
    var d := archive.directory;
    NamesWritten(archive.file, d, body, ls, cs, e, k);
    if j < |cs| { NamesWritten(archive.file, d, body, ls, cs, e, j); }
    WrittenReads(archive.file, d, body, ls, cs, e, k);
    hide RecordName, RecordStart, EntryIsSound, WriteDirectory, IsArchive, DataOffset, LocalHeaderOffset, ReadsAs, LeadsTo;
  }

  lemma NamesWritten(file: Bytes, d: Directory, body: Bytes, ls: seq<Local>, cs: seq<Central>, e: End, j: nat)
    requires IsArchive(file, body, ls, cs, e) && d.bytes == WriteDirectory(cs) && j < |cs|
    ensures RecordName(d, j) == cs[j].name
    ensures forall i: nat :: i < |cs| && cs[i].name == cs[j].name ==> i == j
  {
    WrittenIsGood(d, cs, |body|, j);
    hide RecordName, WriteDirectory, IsLocal, IsPlaced, IsEntryName, IsEnd, WellFormed, Checked, IsGood, Repeats, NameSeenBefore;
  }

  // What is found is what was written.
  ghost predicate Found(file: Bytes, data: ZipEntry, c: Central, l: Local)
    requires |c.head| == 46 && |l.head| == 30
    reads data
  {
    && data.compressionMethod as nat == Le(c.head[10..12]) && data.modTime as nat == Le(c.head[12..14])
    && data.crc32 as nat == Le(c.head[16..20])
    && data.compressedLength as nat == |l.data| && data.uncompressedLength as nat == Le(c.head[24..28])
    && LeadsTo(file, data.offset as int, l.data)
  }

  lemma DescribedIsFound(file: Bytes, d: Directory, p: nat, data: ZipEntry, c: Central, l: Local)
    requires IsLocal(l, c) && ReadsAs(d, p, c) && data.Describes(file, d, p)
    requires LeadsTo(file, DataOffset(file, LocalHeaderOffset(d, p) as nat), l.data)
    ensures Found(file, data, c, l)
  {
    hide Le, LeadsTo, DataOffset, Bit, Method, ModTime, Crc, CompressedSize, UncompressedSize, LocalHeaderOffset, NameOf,
      RecordLength, NameLength, Directory.U32, WriteCentral;
  }

  // Main result: an archive written in the format opens, and looking a name up finds the entry
  // written for it, with its data.
  method FindWritten(archive: ZipArchive, mapFile: (nat, nat) -> Option<Directory>, name: Bytes, data: ZipEntry,
                     ghost body: Bytes, ghost ls: seq<Local>, ghost cs: seq<Central>, ghost e: End, ghost k: nat)
    returns (r: int32)
    requires IsArchive(archive.file, body, ls, cs, e) && MapsFile(archive.file, mapFile)
    requires mapFile(|body|, |WriteDirectory(cs)|).Some?
    requires k < |cs| && cs[k].name == name != []
    modifies archive, data
    ensures r == 0 && |ls| == |cs| && IsLocal(ls[k], cs[k]) && Found(archive.file, data, cs[k], ls[k])
  {
    hide IsArchive, MapsFile, WriteDirectory, IsLocal, Le, ZipArchive.Valid, ScanFinds, LeadsTo, ReadsAs, EntryIsSound,
      ZipEntry.Describes, RecordStart, DataOffset, LocalHeaderOffset, Found;
    r := OpenWritten(archive, mapFile, body, ls, cs, e);
    ghost var d := archive.directory;
    ArchivePart(archive.file, body, ls, cs, e, k);
    WrittenReads(archive.file, d, body, ls, cs, e, k);
    hide ZipArchive.ReadableAs;
    r := archive.FindEntry(name, data);
    forall j: nat ensures archive.ReadableAs(name, j) <==> j == k { OneWritten(archive, body, ls, cs, e, k, j); }
    assert archive.ReadableAs(name, k);
    DescribedIsFound(archive.file, d, RecordStart(d, k), data, cs[k], ls[k]);
  }
}
