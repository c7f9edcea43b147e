/** Copying and inflating entries into a writer, a buffer at a time. */
module Extraction {
  import opened CInt
  import opened ZipCodes
  import opened EntryName

  const BUFFER_SIZE: int := 32768

  // A writer over a fixed region of memory.
  class MemoryWriter {
    const buf: array<uint8>
    const size: nat
    var bytesWritten: nat

    ghost predicate Valid()
      reads this
    {
      bytesWritten <= size <= buf.Length
    }

    // Everything appended so far.
    ghost function Contents(): Bytes
      requires Valid()
      reads this, buf
    {
      buf[..bytesWritten]
    }

    constructor (buf: array<uint8>, size: nat)
      requires size <= buf.Length
      ensures Valid() && Contents() == [] && this.buf == buf && this.size == size
    {
      this.buf, this.size, bytesWritten := buf, size, 0;
    }

    // Appends all of the data or, when it does not fit, nothing; and never writes past the size.
    method Append(data: Bytes) returns (ok: bool)
      requires Valid()
      modifies this, buf
      ensures Valid() && buf[size..] == old(buf[size..])
      ensures ok <==> |old(Contents())| + |data| <= size
      ensures Contents() == if ok then old(Contents()) + data else old(Contents())
    {
      if bytesWritten + |data| > size { return false; }
      var i := 0;
      while i < |data|
        invariant 0 <= i <= |data|
        invariant buf[..bytesWritten] == old(buf[..bytesWritten]) && buf[size..] == old(buf[size..])
        invariant forall k :: 0 <= k < i ==> buf[bytesWritten + k] == data[k]
        modifies buf
      {
        buf[bytesWritten + i] := data[i];
        i := i + 1;
      }
      bytesWritten := bytesWritten + |data|;
      return true;
    }
  }

  // An open file. A read may fail, or be short, whatever the file holds.
  class Input {
    const content: Bytes
    var pos: nat
    // Some read did not give what it was asked for.
    ghost var failed: bool

    ghost predicate Valid()
      reads this
    {
      pos <= |content|
    }

    method Read(n: nat) returns (actual: int, data: Bytes)
      requires Valid()
      modifies this
      ensures Valid() && -1 <= actual <= n
      ensures actual >= 0 ==> pos == old(pos) + actual && data == content[old(pos)..pos]
      ensures actual < 0 ==> pos == old(pos) && data == []
      ensures failed == (old(failed) || actual != n)
    {
      var k: int := *;
      if 0 <= k <= n && pos + k <= |content| {
        actual, data := k, content[pos..pos + k];
        pos := pos + k;
      } else {
        actual, data := -1, [];
      }
      failed := failed || actual != n;
    }
  }

  // A checksum folded over bytes, with the inversion zlib's crc32 puts around it.
  type CrcStep = (uint32, uint8) -> uint32

  function Fold(step: CrcStep, c: uint32, s: Bytes): uint32 {
    if s == [] then c else step(Fold(step, c, s[..|s| - 1]), s[|s| - 1])
  }

  function Crc32(step: CrcStep, c: uint32, s: Bytes): uint32 {
    0xffff_ffff - Fold(step, 0xffff_ffff - c, s)
  }

  lemma {:induction false} FoldJoins(step: CrcStep, c: uint32, a: Bytes, b: Bytes)
    ensures Fold(step, c, a + b) == Fold(step, Fold(step, c, a), b)
  {
    if b == [] {
      assert a + b == a;
    } else {
      assert (a + b)[..|a + b| - 1] == a + b[..|b| - 1];
      FoldJoins(step, c, a, b[..|b| - 1]);
    }
  }

  // The checksum of the parts, one after the other, is that of the whole.
  lemma CrcJoins(step: CrcStep, c: uint32, a: Bytes, b: Bytes)
    ensures Crc32(step, Crc32(step, c, a), b) == Crc32(step, c, a + b)
  {
    FoldJoins(step, 0xffff_ffff - c, a, b);
  }

  // ... and that of one byte is one step, which with the empty run determines every checksum.
  lemma CrcOfByte(step: CrcStep, c: uint32, b: uint8)
    ensures Crc32(step, c, []) == c
    ensures Crc32(step, c, [b]) == 0xffff_ffff - step(0xffff_ffff - c, b)
  {
    assert [b][..0] == [];
  }

  // The writer has received exactly this stretch of the file.
  ghost predicate Delivered(writer: MemoryWriter, before: Bytes, fd: Input, start: nat, count: nat)
    requires writer.Valid()
    reads writer, writer.buf, fd
  {
    start + count <= |fd.content| && writer.Contents() == before + fd.content[start..start + count]
  }

  // One turn of the copy loop.
  method CopyBlock(fd: Input, blockSize: nat, writer: MemoryWriter, ghost before: Bytes, ghost start: nat, ghost count: nat)
    returns (ok: bool, data: Bytes)
    requires fd.Valid() && !fd.failed && writer.Valid() && fd.pos == start + count && Delivered(writer, before, fd, start, count)
    modifies fd, writer, writer.buf
    ensures fd.Valid() && writer.Valid() && old(fd.pos) <= fd.pos
    ensures writer.buf[writer.size..] == old(writer.buf[writer.size..])
    ensures ok <==> !fd.failed && |before| + count + blockSize <= writer.size
    ensures ok ==> fd.pos == start + count + blockSize && Delivered(writer, before, fd, start, count + blockSize)
    ensures ok ==> fd.content[start..start + count] + data == fd.content[start..fd.pos]
    ensures !ok ==> Delivered(writer, before, fd, start, count)
  {
    var actual;
    actual, data := fd.Read(blockSize);
    if actual != blockSize { return false, data; }
    SlicesJoin(fd.content, start, start + count, fd.pos);
    DeliveredJoins(before, fd.content[start..start + count], data);
    hide MemoryWriter.Contents;
    ok := writer.Append(data);
  }

  lemma SlicesJoin(s: Bytes, i: nat, j: nat, k: nat)
    requires i <= j <= k <= |s|
    ensures s[i..j] + s[j..k] == s[i..k]
  {
  }

  lemma DeliveredJoins(before: Bytes, a: Bytes, b: Bytes)
    ensures before + a + b == before + (a + b)
  {
  }

  // Main result: a copy succeeds exactly when no read fails and the bytes fit the writer, and
  // then delivers exactly the entry's bytes, in order, and their checksum; one that fails has
  // delivered only bytes of the file, in order. Nothing is written past the writer's size.
  method CopyEntryToWriter(step: CrcStep, fd: Input, length: uint32, writer: MemoryWriter)
    returns (r: int32, crc: uint32, ghost count: nat)
    requires fd.Valid() && !fd.failed && writer.Valid()
    modifies fd, writer, writer.buf
    ensures fd.Valid() && writer.Valid() && r in {0, IO_ERROR}
    ensures r == 0 <==> !fd.failed && |old(writer.Contents())| + length as nat <= writer.size
    ensures writer.buf[writer.size..] == old(writer.buf[writer.size..])
    ensures Delivered(writer, old(writer.Contents()), fd, old(fd.pos), count) && count <= length as nat
    ensures r == 0 ==> count == length as nat && fd.pos == old(fd.pos) + count
    ensures r == 0 ==> crc == Crc32(step, 0, fd.content[old(fd.pos)..fd.pos])
  {
    ghost var start, before := fd.pos, writer.Contents();
    var copied: nat := 0;
    count, crc := 0, 0;
    assert fd.content[start..start + 0] == [] && before + [] == before;
    hide Crc32;
    assert crc == Crc32(step, 0, fd.content[start..start]) by { NothingToCheck(step); }
    while copied < length as nat
      invariant copied == count <= length as nat && fd.Valid() && fd.pos == start + count && writer.Valid()
      invariant Delivered(writer, before, fd, start, count)
      invariant !fd.failed && |before| + count <= writer.size
      invariant writer.buf[writer.size..] == old(writer.buf[writer.size..])
      invariant crc == Crc32(step, 0, fd.content[start..fd.pos])
    {
      var remaining := length as nat - copied;
      var blockSize := if remaining > BUFFER_SIZE then BUFFER_SIZE else remaining;
      var ok, data := CopyBlock(fd, blockSize, writer, before, start, count);
      if !ok { return IO_ERROR, crc, count; }
      CrcJoins(step, 0, fd.content[start..start + count], data);
      crc := Crc32(step, crc, data);
      copied := copied + blockSize;
      count := copied;
    }
    r := 0;
  }

  lemma NothingToCheck(step: CrcStep)
    ensures Crc32(step, 0, []) == 0
  {
  }

  // ---- Inflating

  datatype ZlibResult = Ok | StreamEnd | Error

  // A decompressor: what it will produce is fixed, how much it takes and gives in one call
  // is not. A call that returns Ok has made progress.
  class Inflater {
    // All the output of the stream, and how much of it has been produced.
    ghost const output: Bytes
    var pending: Bytes
    var totalOut: nat
    // All the input it has consumed.
    ghost var taken: Bytes

    ghost predicate Valid()
      reads this
    {
      totalOut <= |output| && pending == output[totalOut..]
    }

    method Inflate(input: Bytes, availOut: nat) returns (zerr: ZlibResult, rest: Bytes, produced: Bytes)
      requires Valid()
      modifies this
      ensures Valid() && |produced| <= availOut
      ensures taken + rest == old(taken) + input && old(taken) <= taken
      ensures totalOut == old(totalOut) + |produced| && produced == output[old(totalOut)..totalOut]
      ensures zerr == Ok ==> |rest| < |input| || produced != []
      ensures zerr == StreamEnd ==> totalOut == |output|
    {
      var take: int, give: int := *, *;
      if 0 <= take <= |input| && 0 <= give <= |pending| && give <= availOut {
        rest, produced := input[take..], pending[..give];
        pending := pending[give..];
        totalOut := totalOut + give;
        taken := taken + input[..take];
        zerr := if take + give > 0 then Ok else Error;
        var finished: bool := *;
        if pending == [] && finished { zerr := StreamEnd; }
      } else {
        zerr, rest, produced := Error, input, [];
      }
    }
  }

  // What the decompressor consumed and what is left of the input are the bytes read, in order.
  ghost predicate Fed(fd: Input, start: nat, taken: Bytes, input: Bytes)
    reads fd
  {
    start <= fd.pos <= |fd.content| && taken + input == fd.content[start..fd.pos]
  }

  // Reads as much as there is room and file for, when there is no input left.
  method Refill(fd: Input, input: Bytes, compressedLength: nat, ghost start: nat, ghost taken: Bytes)
    returns (ok: bool, more: Bytes, left: nat)
    requires fd.Valid() && !fd.failed && Fed(fd, start, taken, input)
    modifies fd
    ensures fd.Valid() && ok == !fd.failed && |more| + left == |input| + compressedLength
    ensures ok ==> fd.pos + left == old(fd.pos) + compressedLength && Fed(fd, start, taken, more)
  {
    more, left := input, compressedLength;
    if input == [] {
      var getSize := if compressedLength > BUFFER_SIZE then BUFFER_SIZE else compressedLength;
      ghost var at := fd.pos;
      var actual, data := fd.Read(getSize);
      if actual != getSize { return false, more, left; }
      SlicesJoin(fd.content, start, at, fd.pos);
      return true, data, left - getSize;
    }
    ok := true;
  }

  // What a writer that held 'before' holds once 'flushed' bytes of a stream were appended,
  // and what the buffer in front of it holds when 'produced' have been produced.
  ghost predicate InFlight(contents: Bytes, writeBuf: Bytes, before: Bytes, output: Bytes, flushed: nat, produced: nat) {
    flushed <= produced <= |output| && contents == before + output[..flushed] && writeBuf == output[flushed..produced]
  }

  // Writes the buffer when it is full, or when the stream has ended and it is not empty.
  method Flush(writer: MemoryWriter, inBuf: Bytes, ended: bool, ghost before: Bytes, ghost output: Bytes, ghost flushed: nat, ghost produced: nat)
    returns (ok: bool, writeBuf: Bytes, ghost nowFlushed: nat)
    requires writer.Valid() && |inBuf| <= BUFFER_SIZE
    requires InFlight(writer.Contents(), inBuf, before, output, flushed, produced)
    modifies writer, writer.buf
    ensures writer.Valid() && writer.buf[writer.size..] == old(writer.buf[writer.size..])
    ensures InFlight(writer.Contents(), writeBuf, before, output, nowFlushed, produced)
    ensures ok ==> |writeBuf| < BUFFER_SIZE && (ended ==> nowFlushed == produced)
    ensures !ok ==> |before| + produced > writer.size
  {
    ok, writeBuf, nowFlushed := true, inBuf, flushed;
    if |writeBuf| == BUFFER_SIZE || (ended && |writeBuf| != 0) {
      ok := writer.Append(writeBuf);
      if !ok { return; }
      assert output[..flushed] + writeBuf == output[..produced];
      writeBuf, nowFlushed := [], produced;
    }
  }

  // Main result: when the stream ends every byte it produced has been appended once, in order.
  // The result is 0 exactly when, besides, it produced the declared number of bytes and all
  // declared input was read. That is not to say that it was used: a stream may end before.
  method InflateEntryToWriter(fd: Input, z: Inflater, inCompressedLength: uint32, uncompressedLength: uint32, writer: MemoryWriter)
    returns (r: int32, ended: bool, ghost unused: Bytes)
    requires fd.Valid() && !fd.failed && z.Valid() && z.totalOut == 0 && z.taken == [] && writer.Valid()
    modifies fd, z, writer, writer.buf
    ensures fd.Valid() && writer.Valid() && writer.buf[writer.size..] == old(writer.buf[writer.size..])
    ensures ended ==> writer.Contents() == old(writer.Contents()) + z.output
    ensures r == 0 <==> ended && |z.output| == uncompressedLength as nat && fd.pos == old(fd.pos) + inCompressedLength as nat
    ensures ended ==> Fed(fd, old(fd.pos), z.taken, unused) && fd.pos <= old(fd.pos) + inCompressedLength as nat
    ensures r == 0 ==> (|z.taken| == inCompressedLength as nat <==> unused == [])
    ensures !ended ==> r == IO_ERROR || r == ZLIB_ERROR || r == INCONSISTENT_INFORMATION
    ensures r == IO_ERROR <==> fd.failed
    ensures !ended && r == INCONSISTENT_INFORMATION ==> |old(writer.Contents())| + |z.output| > writer.size
    ensures old(writer.Contents()) <= writer.Contents() && writer.Contents()[|old(writer.Contents())|..] <= z.output
  {
    ghost var before, start := writer.Contents(), fd.pos;
    ghost var flushed: nat := 0;
    var compressedLength: nat := inCompressedLength as nat;
    var input: Bytes, writeBuf: Bytes := [], [];
    unused := [];
    assert before + z.output[..0] == before;
    var zerr := Ok;
    while zerr == Ok
      invariant fd.Valid() && !fd.failed && z.Valid() && writer.Valid()
      invariant fd.pos + compressedLength == start + inCompressedLength as nat && Fed(fd, start, z.taken, input)
      invariant |writeBuf| < BUFFER_SIZE && InFlight(writer.Contents(), writeBuf, before, z.output, flushed, z.totalOut)
      invariant writer.buf[writer.size..] == old(writer.buf[writer.size..])
      invariant zerr == Ok || (zerr == StreamEnd && flushed == z.totalOut == |z.output|)
      decreases compressedLength + |input| + |z.output| - z.totalOut, if zerr == Ok then 1 else 0
    {
      var ok: bool;
      ok, input, compressedLength := Refill(fd, input, compressedLength, start, z.taken);
      if !ok { return IO_ERROR, false, input; }
      ghost var made := z.totalOut;
      var produced: Bytes;
      zerr, input, produced := z.Inflate(input, BUFFER_SIZE - |writeBuf|);
      if zerr != Ok && zerr != StreamEnd { return ZLIB_ERROR, false, input; }
      SlicesJoin(z.output, flushed, made, z.totalOut);
      writeBuf := writeBuf + produced;
      ok, writeBuf, flushed := Flush(writer, writeBuf, zerr == StreamEnd, before, z.output, flushed, z.totalOut);
      if !ok { return INCONSISTENT_INFORMATION, false, input; }
    }
    unused := input;
    if z.totalOut != uncompressedLength as nat || compressedLength != 0 { return INCONSISTENT_INFORMATION, true, unused; }
    return 0, true, unused;
  }
}
