/** What an archive file looks like, byte by byte (APPNOTE.TXT, section 4.3): numbers are
    little-endian, and each record is a fixed part, here its raw bytes, with names and data after it. */
module ZipFormat {
  import opened EntryName

  function Le(s: Bytes): nat {
    if s == [] then 0 else s[0] as nat + 0x100 * Le(s[1..])
  }

  // A record of the central directory.
  datatype Central = Central(head: Bytes, name: Bytes, extra: Bytes, comment: Bytes)

  predicate IsCentral(c: Central) {
    && |c.head| == 46 && c.head[..4] == [0x50, 0x4b, 1, 2]
    && Le(c.head[28..30]) == |c.name| && Le(c.head[30..32]) == |c.extra| && Le(c.head[32..34]) == |c.comment|
  }

  function WriteCentral(c: Central): Bytes {
    c.head + c.name + c.extra + c.comment
  }

  function WriteDirectory(cs: seq<Central>): Bytes {
    if cs == [] then [] else WriteCentral(cs[0]) + WriteDirectory(cs[1..])
  }

  predicate AreCentral(cs: seq<Central>) {
    forall i :: 0 <= i < |cs| ==> IsCentral(cs[i])
  }

  // An entry's local header, with its data after it.
  datatype Local = Local(head: Bytes, name: Bytes, extra: Bytes, data: Bytes)

  predicate IsHeader(l: Local) {
    |l.head| == 30 && Le(l.head[26..28]) == |l.name| && Le(l.head[28..30]) == |l.extra|
  }

  // It has the signature, the name and, unless flag 3 says that they follow the data, the
  // checksum and sizes of the record.
  predicate Agrees(l: Local, c: Central)
    requires |l.head| == 30 && |c.head| == 46
  {
    && l.head[..4] == [0x50, 0x4b, 3, 4] && l.name == c.name
    && (Le(l.head[6..8]) / 8 % 2 == 0 ==> l.head[14..26] == c.head[16..28])
  }

  // The entry of the record: its data has the compressed size, and a stored one's sizes are equal.
  predicate IsLocal(l: Local, c: Central) {
    && IsHeader(l) && IsCentral(c) && Agrees(l, c)
    && |l.data| == Le(c.head[20..24])
    && (Le(c.head[10..12]) == 0 ==> Le(c.head[24..28]) == Le(c.head[20..24]))
  }

  function WriteLocal(l: Local): Bytes {
    l.head + l.name + l.extra + l.data
  }

  // The end-of-central-directory record.
  datatype End = End(head: Bytes, comment: Bytes)

  predicate IsEnd(e: End, count: nat, size: nat, start: nat) {
    && |e.head| == 22 && e.head[..4] == [0x50, 0x4b, 5, 6]
    && Le(e.head[10..12]) == count && Le(e.head[12..16]) == size && Le(e.head[16..20]) == start
    && Le(e.head[20..22]) == |e.comment|
  }

  predicate EndSignatureAt(file: Bytes, j: nat) {
    j + 4 <= |file| && file[j..j + 4] == [0x50, 0x4b, 5, 6]
  }

  predicate Distinct(cs: seq<Central>) {
    forall i, j :: 0 <= i < j < |cs| ==> cs[i].name != cs[j].name
  }

  // The local header of the record stands where the record says.
  predicate IsPlaced(body: Bytes, l: Local, c: Central)
    requires |c.head| == 46
  {
    var at := Le(c.head[42..46]);
    at + |WriteLocal(l)| <= |body| && body[at..at + |WriteLocal(l)|] == WriteLocal(l)
  }

  // A whole archive: local headers and data, the directory, and its end.
  ghost predicate IsArchive(file: Bytes, body: Bytes, ls: seq<Local>, cs: seq<Central>, e: End) {
    && 0 < |cs| == |ls| && AreCentral(cs) && Distinct(cs)
    && (forall i :: 0 <= i < |cs| ==> IsLocal(ls[i], cs[i]) && IsPlaced(body, ls[i], cs[i]) && IsEntryName(cs[i].name))
    && IsEnd(e, |cs|, |WriteDirectory(cs)|, |body|)
    && file == body + WriteDirectory(cs) + (e.head + e.comment) && |file| <= 0xffff_ffff
    && forall j: nat :: |file| - |e.comment| - 22 < j <= |file| - 22 ==> !EndSignatureAt(file, j)
  }
}
