/** Iterating over an archive's entries, with or without a prefix, any number of times. */
module ZipIteration {
  import opened CInt
  import opened Options
  import opened ZipCodes
  import opened EntryName
  import opened ZipDirectory
  import opened NameIndex
  import opened ZipParser
  import opened ZipArchives

  // The slot is visited: it is in use and the directory's bytes at its name begin with the
  // prefix. The name's own length is not consulted.
  predicate Matches(d: Directory, t: Table, prefix: Bytes, i: nat)
    requires i < |t|
  {
    t[i].Name? && (prefix == [] || d.Slice(t[i].name, |prefix|) == prefix)
  }

  // A name shorter than the prefix that the bytes after it complete.
  predicate CompletesPrefix(d: Directory, e: ZipEntryName, prefix: Bytes)
    requires e.Name?
  {
    e.length as nat < |prefix| && d.Slice(e.name, |prefix|) == prefix
  }

  // The slots visited are those of the names that begin with the prefix if and only if no
  // name is completed by the bytes after it.
  lemma MatchesAreNames(d: Directory, t: Table, prefix: Bytes)
    ensures (forall i: nat :: i < |t| && t[i].Name? ==> (Matches(d, t, prefix, i) <==> prefix <= BytesOf(d, t[i])))
      <==> forall i: nat :: i < |t| && t[i].Name? ==> !CompletesPrefix(d, t[i], prefix)
  {
    forall i: nat | i < |t| && t[i].Name?
      ensures (Matches(d, t, prefix, i) <==> prefix <= BytesOf(d, t[i])) <==> !CompletesPrefix(d, t[i], prefix)
    {
      SliceBegins(d, t[i].name, t[i].length as nat, prefix);
    }
  }

  lemma SliceBegins(d: Directory, p: nat, n: nat, prefix: Bytes)
    ensures prefix <= d.Slice(p, n) <==> |prefix| <= n && d.Slice(p, |prefix|) == prefix
  {
    if |prefix| <= n { assert d.Slice(p, n)[..|prefix|] == d.Slice(p, |prefix|); }
  }

  // The slots to visit from a position on, in order.
  function MatchesFrom(d: Directory, t: Table, prefix: Bytes, pos: nat): seq<nat>
    decreases |t| - pos
  {
    if pos >= |t| then []
    else (if Matches(d, t, prefix, pos) then [pos] else []) + MatchesFrom(d, t, prefix, pos + 1)
  }

  // One call of Next from a position: the slot visited, if any, and the position after it.
  function Step(d: Directory, t: Table, prefix: Bytes, pos: nat): (Option<nat>, nat) {
    var rest := MatchesFrom(d, t, prefix, pos);
    if rest == [] then (None, 0) else (Some(rest[0]), rest[0] + 1)
  }

  // The slot is in use, and is named exactly when its entry can be read.
  ghost predicate Names(file: Bytes, d: Directory, directoryOffset: int, t: Table, i: nat, r: int32, name: ZipEntryName) {
    && i < |t| && t[i].Name? && t[i].name >= RECORD_SIZE && r != ITERATION_END
    && (r == 0 <==> EntryIsSound(file, d, directoryOffset, t[i].name - RECORD_SIZE))
    && name == if r == 0 then t[i] else NoName
  }

  class IterationHandle {
    var position: nat
    const prefix: Bytes
    const archive: ZipArchive

    constructor (archive: ZipArchive, prefix: Bytes)
      ensures this.archive == archive && this.prefix == prefix && position == 0
    {
      this.archive := archive;
      this.prefix := prefix;
      position := 0;
    }

    // The code for a missing table is that of a missing handle.
    method Next(data: ZipEntry) returns (r: int32, name: ZipEntryName)
      requires archive.hashTable != null ==> archive.Valid()
      modifies this, data
      ensures archive.hashTable == null ==> r == INVALID_HANDLE && position == old(position)
      ensures archive.hashTable != null ==>
        var (visited, after) := Step(archive.directory, archive.hashTable[..], prefix, old(position));
        position == after && Reports(visited, r, name, data)
    {
      name := NoName;
      if archive.hashTable == null { return INVALID_HANDLE, name; }
      var i := NextSlotToVisit();
      hide MatchesFrom, EntryIsSound, ZipEntry.Describes, ZipArchive.Valid;
      if i < archive.hashTable.Length {
        position := i + 1;
        r, name := Visit(i, data);
        return;
      }
      position := 0;
      return ITERATION_END, name;
    }

    // Reads the slot's entry, and names it if that succeeds.
    method Visit(i: nat, data: ZipEntry) returns (r: int32, name: ZipEntryName)
      requires archive.hashTable != null && archive.Valid() && i < archive.hashTable.Length && archive.hashTable[i].Name?
      modifies data
      ensures Reports(Some(i), r, name, data)
    {
      hide EntryIsSound, ErrorMeans, Indexes, GoodPrefix, HasRoom, ZipEntry.Describes;
      name := NoName;
      r := archive.FindEntryAt(i, data);
      if r == 0 { name := archive.hashTable[i]; }
    }

    // The search for the slot, from the current position.
    method NextSlotToVisit() returns (i: nat)
      requires archive.hashTable != null
      ensures var rest := MatchesFrom(archive.directory, archive.hashTable[..], prefix, position);
        if i < archive.hashTable.Length then rest != [] && rest[0] == i && archive.hashTable[i].Name? else rest == []
    {
      ghost var d, t := archive.directory, archive.hashTable[..];
      i := position;
      while i < archive.hashTable.Length
        invariant MatchesFrom(d, t, prefix, i) == MatchesFrom(d, t, prefix, position)
        decreases archive.hashTable.Length - i
      {
        var slot := archive.hashTable[i];
        if slot.Name? && (prefix == [] || archive.directory.Slice(slot.name, |prefix|) == prefix) { return; }
        i := i + 1;
      }
    }

    // What a call says about the slot it visited, or about having none left.
    ghost predicate Reports(visited: Option<nat>, r: int32, name: ZipEntryName, data: ZipEntry)
      requires archive.hashTable != null
      reads this, archive, archive.hashTable, data
    {
      match visited
      case None => r == ITERATION_END && name == NoName
      case Some(i) =>
        && Names(archive.file, archive.directory, archive.directoryOffset as int, archive.hashTable[..], i, r, name)
        && (r == 0 ==> data.Describes(archive.file, archive.directory, archive.hashTable[i].name - RECORD_SIZE))
    }
  }

  method StartIteration(archive: ZipArchive?, optionalPrefix: Option<Bytes>) returns (r: int32, cookie: IterationHandle?)
    ensures r == if archive == null || archive.hashTable == null then INVALID_HANDLE else 0
    ensures r == 0 <==> cookie != null
    ensures r == 0 ==> cookie.position == 0 && cookie.archive == archive
    ensures r == 0 ==> cookie.prefix == if optionalPrefix.Some? then optionalPrefix.value else []
  {
    if archive == null || archive.hashTable == null { return INVALID_HANDLE, null; }
    var handle := new IterationHandle(archive, if optionalPrefix.Some? then optionalPrefix.value else []);
    return 0, handle;
  }

  // ---- Whole runs

  // The slots a number of calls visit, and where they leave the position.
  function Visits(d: Directory, t: Table, prefix: Bytes, pos: nat, calls: nat): seq<Option<nat>>
    decreases calls
  {
    if calls == 0 then []
    else
      var (visited, after) := Step(d, t, prefix, pos);
      [visited] + Visits(d, t, prefix, after, calls - 1)
  }

  function PositionAfter(d: Directory, t: Table, prefix: Bytes, pos: nat, calls: nat): nat
    decreases calls
  {
    if calls == 0 then pos else PositionAfter(d, t, prefix, Step(d, t, prefix, pos).1, calls - 1)
  }

  lemma {:induction false} MatchesAre(d: Directory, t: Table, prefix: Bytes, pos: nat, i: nat)
    ensures i in MatchesFrom(d, t, prefix, pos) <==> pos <= i < |t| && Matches(d, t, prefix, i)
    decreases |t| - pos
  {
    hide Matches;
    if pos < |t| { MatchesAre(d, t, prefix, pos + 1, i); }
  }

  lemma {:induction false} MatchesFollow(d: Directory, t: Table, prefix: Bytes, pos: nat, j: nat)
    requires j < |MatchesFrom(d, t, prefix, pos)|
    ensures pos <= MatchesFrom(d, t, prefix, pos)[j]
    decreases |t| - pos
  {
    hide Matches;
    if !Matches(d, t, prefix, pos) {
      MatchesFollow(d, t, prefix, pos + 1, j);
    } else if j > 0 {
      MatchesFollow(d, t, prefix, pos + 1, j - 1);
    }
  }

  lemma {:induction false} MatchesIncrease(d: Directory, t: Table, prefix: Bytes, pos: nat, j: nat, k: nat)
    requires j < k < |MatchesFrom(d, t, prefix, pos)|
    ensures MatchesFrom(d, t, prefix, pos)[j] < MatchesFrom(d, t, prefix, pos)[k]
    decreases |t| - pos
  {
    hide Matches;
    if !Matches(d, t, prefix, pos) {
      MatchesIncrease(d, t, prefix, pos + 1, j, k);
    } else if j > 0 {
      MatchesIncrease(d, t, prefix, pos + 1, j - 1, k - 1);
    } else {
      MatchesFollow(d, t, prefix, pos + 1, k - 1);
    }
  }

  // The matches are every matching slot, each once, in slot order.
  lemma MatchesAreInOrder(d: Directory, t: Table, prefix: Bytes, pos: nat)
    ensures var ms := MatchesFrom(d, t, prefix, pos);
      && (forall i: nat :: i in ms <==> pos <= i < |t| && Matches(d, t, prefix, i))
      && (forall j, k :: 0 <= j < k < |ms| ==> ms[j] < ms[k])
  {
    hide Matches, MatchesFrom;
    forall i: nat ensures i in MatchesFrom(d, t, prefix, pos) <==> pos <= i < |t| && Matches(d, t, prefix, i) {
      MatchesAre(d, t, prefix, pos, i);
    }
    var ms := MatchesFrom(d, t, prefix, pos);
    forall j: nat, k: nat | j < k < |ms| ensures ms[j] < ms[k] { MatchesIncrease(d, t, prefix, pos, j, k); }
  }

  // Past a match the rest of the list is left.
  lemma {:induction false} MatchesAfter(d: Directory, t: Table, prefix: Bytes, pos: nat)
    requires MatchesFrom(d, t, prefix, pos) != []
    ensures var ms := MatchesFrom(d, t, prefix, pos);
      pos <= ms[0] < |t| && MatchesFrom(d, t, prefix, ms[0] + 1) == ms[1..]
    decreases |t| - pos
  {
    if !Matches(d, t, prefix, pos) { MatchesAfter(d, t, prefix, pos + 1); }
  }

  // Main result: from the start, the calls visit every matching slot once in order, then
  // report the end once, and then are back at the start.
  lemma {:induction false} WholeRun(d: Directory, t: Table, prefix: Bytes, pos: nat)
    ensures var ms := MatchesFrom(d, t, prefix, pos);
      && Visits(d, t, prefix, pos, |ms| + 1) == seq(|ms|, i requires 0 <= i < |ms| => Some(ms[i])) + [None]
      && PositionAfter(d, t, prefix, pos, |ms| + 1) == 0
    decreases |t| - pos
  {
    var ms := MatchesFrom(d, t, prefix, pos);
    if ms != [] {
      MatchesAfter(d, t, prefix, pos);
      WholeRun(d, t, prefix, ms[0] + 1);
    }
  }

  // What calls report so far: for each slot visited, its entry.
  ghost predicate AllNamed(a: ZipArchive, t: Table, ms: seq<nat>, results: seq<(int32, ZipEntryName)>)
    requires |results| <= |ms|
    reads a
  {
    forall k :: 0 <= k < |results| ==>
      Names(a.file, a.directory, a.directoryOffset as int, t, ms[k], results[k].0, results[k].1)
  }

  // After call n of a run: it reported slot n and the rest is left, or it reported the end.
  ghost predicate Called(a: ZipArchive, t: Table, prefix: Bytes, ms: seq<nat>, n: nat, position: nat, r: int32, name: ZipEntryName)
    reads a
  {
    if r == ITERATION_END then n == |ms| && name == NoName && position == 0
    else
      && n < |ms| && Names(a.file, a.directory, a.directoryOffset as int, t, ms[n], r, name)
      && MatchesFrom(a.directory, t, prefix, position) == ms[n + 1..]
  }

  lemma OneMoreNamed(a: ZipArchive, t: Table, prefix: Bytes, ms: seq<nat>, results: seq<(int32, ZipEntryName)>,
                     position: nat, r: int32, name: ZipEntryName)
    requires |results| <= |ms| && AllNamed(a, t, ms, results) && r != ITERATION_END
    requires Called(a, t, prefix, ms, |results|, position, r, name)
    ensures |results| < |ms| && AllNamed(a, t, ms, results + [(r, name)])
    ensures MatchesFrom(a.directory, t, prefix, position) == ms[|results| + 1..]
  {
    hide Names, MatchesFrom;
  }

  lemma AllVisited(a: ZipArchive, t: Table, prefix: Bytes, ms: seq<nat>, results: seq<(int32, ZipEntryName)>,
                   position: nat, r: int32, name: ZipEntryName)
    requires Called(a, t, prefix, ms, |results|, position, r, name) && r == ITERATION_END
    ensures |results| == |ms| && position == 0 && name == NoName
    ensures (results + [(r, name)])[..|ms|] == results
  {
  }

  // One call takes the next of the slots to visit, or reports the end.
  method VisitNext(handle: IterationHandle, data: ZipEntry, ghost ms: seq<nat>, ghost k: nat) returns (r: int32, name: ZipEntryName)
    requires handle.archive.hashTable != null && handle.archive.Valid() && k <= |ms|
    requires MatchesFrom(handle.archive.directory, handle.archive.hashTable[..], handle.prefix, handle.position) == ms[k..]
    modifies handle, data
    ensures Called(handle.archive, handle.archive.hashTable[..], handle.prefix, ms, k, handle.position, r, name)
  {
    ghost var d, t := handle.archive.directory, handle.archive.hashTable[..];
    if k < |ms| { MatchesAfter(d, t, handle.prefix, handle.position); }
    hide MatchesFrom, ZipArchive.Valid, EntryIsSound, ZipEntry.Describes;
    r, name := handle.Next(data);
  }

  // ... as calling until the end is reported shows.
  method VisitAll(handle: IterationHandle, data: ZipEntry) returns (results: seq<(int32, ZipEntryName)>)
    requires handle.archive.hashTable != null && handle.archive.Valid()
    modifies handle, data
    ensures handle.position == 0
    ensures var a := handle.archive;
      var ms := MatchesFrom(a.directory, a.hashTable[..], handle.prefix, old(handle.position));
      && |results| == |ms| + 1 && results[|ms|] == (ITERATION_END, NoName)
      && AllNamed(a, a.hashTable[..], ms, results[..|ms|])
  {
    ghost var a, t, prefix := handle.archive, handle.archive.hashTable[..], handle.prefix;
    ghost var ms := MatchesFrom(a.directory, t, prefix, handle.position);
    results := [];
    assert ms[0..] == ms && AllNamed(a, t, ms, results);
    hide MatchesFrom, ZipArchive.Valid, Names, AllNamed, Called;
    var r, name := VisitNext(handle, data, ms, 0);
    while r != ITERATION_END
      invariant a.Valid() && |results| <= |ms| && AllNamed(a, t, ms, results)
      invariant Called(a, t, prefix, ms, |results|, handle.position, r, name)
      decreases |ms| - |results|
    {
      OneMoreNamed(a, t, prefix, ms, results, handle.position, r, name);
      results := results + [(r, name)];
      r, name := VisitNext(handle, data, ms, |results|);
    }
    AllVisited(a, t, prefix, ms, results, handle.position, r, name);
    results := results + [(r, name)];
  }

  lemma {:induction false} MatchesCount(d: Directory, t: Table, pos: nat)
    requires pos <= |t|
    ensures Used(t[..pos]) + |MatchesFrom(d, t, [], pos)| == Used(t)
    decreases |t| - pos
  {
    if pos < |t| {
      MatchesCount(d, t, pos + 1);
      assert t[..pos + 1][..pos] == t[..pos];
    } else {
      assert t[..pos] == t;
    }
  }

  // Without a prefix the slots visited stand for the records, one for each.
  lemma EveryRecordVisitedOnce(d: Directory, t: Table, n: nat, j: nat)
    requires Indexes(d, t, n) && j < n
    ensures var ms := MatchesFrom(d, t, [], 0);
      && |ms| == n && (forall k :: 0 <= k < n ==> ms[k] < |t|)
      && exists k: nat :: k < n && t[ms[k]] == EntryOf(d, j) && forall l: nat :: l < n && l != k ==> t[ms[l]] != EntryOf(d, j)
  {
    var ms := MatchesFrom(d, t, [], 0);
    MatchesCount(d, t, 0);
    assert t[..0] == [];
    MatchesAreInOrder(d, t, [], 0);
    assert forall k :: 0 <= k < n ==> ms[k] in ms;
    assert IsEntered(d, t, j);
    var i: nat :| i < |t| && t[i] == EntryOf(d, j);
    assert Matches(d, t, [], i);
    var k: nat :| k < |ms| && ms[k] == i;
    forall l: nat | l < n && l != k ensures t[ms[l]] != EntryOf(d, j) {
      assert ms[l] in ms && ms[l] != i;
      assert t[ms[l]].Name? && BytesOf(d, t[ms[l]]) != BytesOf(d, t[i]);
    }
  }
}
