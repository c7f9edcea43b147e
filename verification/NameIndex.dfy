/** The hash table of entry names: open addressing with linear probing in a table
    whose size is a power of two. */
module NameIndex {
  import opened CInt
  import opened ZipCodes
  import opened Bits
  import opened PowerOfTwo
  import opened EntryName
  import opened ZipDirectory

  // A name in the directory: its place and length. An empty slot has a null place.
  datatype ZipEntryName = NoName | Name(name: nat, length: uint16)

  function BytesOf(d: Directory, e: ZipEntryName): Bytes
    requires e.Name?
  {
    d.Slice(e.name, e.length as nat)
  }

  function HashOf(s: Bytes): uint32 {
    if s == [] then 0
    else ((HashOf(s[..|s| - 1]) as int * 31 + s[|s| - 1] as int) % UINT32_COUNT) as uint32
  }

  function Pow31(k: nat): nat {
    if k == 0 then 1 else 31 * Pow31(k - 1)
  }

  // The bytes as digits of a number to the base 31.
  function Digits31(s: Bytes): nat {
    if s == [] then 0 else s[0] as nat * Pow31(|s| - 1) + Digits31(s[1..])
  }

  lemma {:induction false} OneMoreDigit(s: Bytes, b: uint8)
    ensures Digits31(s + [b]) == 31 * Digits31(s) + b as nat
  {
    if s == [] {
      assert s + [b] == [b] && [b][1..] == [];
    } else {
      OneMoreDigit(s[1..], b);
      assert (s + [b])[1..] == s[1..] + [b];
      assert s[0] as nat * (31 * Pow31(|s| - 1)) == 31 * (s[0] as nat * Pow31(|s| - 1));
    }
  }

  // The hash is that number's low 32 bits.
  lemma {:induction false} HashIsNumber(s: Bytes)
    ensures HashOf(s) as nat == Digits31(s) % UINT32_COUNT
  {
    if s != [] {
      var init, b := s[..|s| - 1], s[|s| - 1];
      HashIsNumber(init);
      OneMoreDigit(init, b);
      assert s == init + [b];
      assert HashOf(s) as int == (HashOf(init) as int * 31 + b as int) % UINT32_COUNT;
      hide Digits31, HashOf;
      var n := Digits31(init);
      SameRemainder(31 * n + b as nat, HashOf(init) as nat * 31 + b as nat, UINT32_COUNT, 31 * (n / UINT32_COUNT));
    }
  }

  method ComputeHash(name: Bytes) returns (hash: uint32)
    ensures hash == HashOf(name)
  {
    hash := 0;
    var i := 0;
    while i < |name|
      invariant 0 <= i <= |name| && hash == HashOf(name[..i])
    {
      assert name[..i + 1][..i] == name[..i];
      hash := ((hash as int * 31 + name[i] as int) % UINT32_COUNT) as uint32;
      i := i + 1;
    }
    assert name[..i] == name;
  }

  // The slot a name's probe starts at.
  function Home(name: Bytes, size: nat): nat
    requires size > 0
  {
    HashOf(name) as nat % size
  }

  function NextSlot(ent: nat, size: nat): nat {
    if ent + 1 == size then 0 else ent + 1
  }

  // k lies on the way from h up to but not including i, around the table.
  predicate OnTheWay(h: nat, k: nat, i: nat) {
    if h <= i then h <= k < i else k >= h || k < i
  }

  type Table = seq<ZipEntryName>

  // Slot i holds this name.
  predicate HoldsName(d: Directory, t: Table, i: nat, name: Bytes)
    requires i < |t|
  {
    t[i].Name? && BytesOf(d, t[i]) == name
  }

  ghost predicate HasName(d: Directory, t: Table, name: Bytes) {
    exists i: nat :: i < |t| && HoldsName(d, t, i, name)
  }

  // The linear-probing invariant for the name in slot i.
  ghost predicate Reachable(d: Directory, t: Table, i: nat)
    requires i < |t|
  {
    t[i].Name? ==>
      forall k: nat :: k < |t| && OnTheWay(Home(BytesOf(d, t[i]), |t|), k, i) ==> t[k].Name?
  }

  ghost predicate ValidTable(d: Directory, t: Table) {
    && IsPowerOf2(|t|) && |t| < UINT32_COUNT
    && (forall i: nat :: i < |t| ==> Reachable(d, t, i))
    && (forall i: nat, j: nat :: i < j < |t| && t[i].Name? && t[j].Name? ==> BytesOf(d, t[i]) != BytesOf(d, t[j]))
  }

  ghost predicate HasRoom(t: Table) {
    exists i: nat :: i < |t| && t[i].NoName?
  }

  // ---- Probing

  // Masking with the size less one is reducing modulo the size.
  lemma MaskIsModulo(x: nat, size: nat)
    requires IsPowerOf2(size)
    ensures size > 0 && And(x, size - 1) == x % size
  {
    var k: nat :| size == Pow2(k);
    AndMask(x, k);
  }

  lemma MaskIsNext(ent: nat, size: nat)
    requires IsPowerOf2(size) && ent < size
    ensures And(ent + 1, size - 1) == NextSlot(ent, size)
  {
    MaskIsModulo(ent + 1, size);
    if ent + 1 < size { DivisionIsUnique(ent + 1, size, 0, ent + 1); } else { DivisionIsUnique(ent + 1, size, 1, 0); }
  }

  // A probe for the name, from its home, has met only other names before ent.
  ghost predicate Probed(d: Directory, t: Table, name: Bytes, ent: nat)
    requires |t| > 0
  {
    forall k: nat :: k < |t| && OnTheWay(Home(name, |t|), k, ent) ==> t[k].Name? && !HoldsName(d, t, k, name)
  }

  // Standing at an empty slot, it has shown the name absent.
  lemma AbsentAtEmpty(d: Directory, t: Table, name: Bytes, ent: nat)
    requires ValidTable(d, t) && ent < |t| && t[ent].NoName? && Probed(d, t, name, ent)
    ensures !HasName(d, t, name)
  {
    forall i: nat | i < |t| ensures !HoldsName(d, t, i, name) {
      assert Reachable(d, t, i);
    }
  }

  // How far it is from ent around to a slot that stops the probe.
  function Distance(ent: nat, stop: nat, size: nat): int {
    if ent <= stop then stop - ent else stop - ent + size
  }

  // One more occupied slot brings it nearer to every empty one.
  lemma ProbeStep(d: Directory, t: Table, name: Bytes, ent: nat, stop: nat)
    requires IsPowerOf2(|t|) && ent < |t| && stop < |t| && Probed(d, t, name, ent)
    requires t[ent].Name? && !HoldsName(d, t, ent, name) && t[stop].NoName?
    ensures var next := And(ent + 1, |t| - 1);
      next < |t| && Probed(d, t, name, next) && 0 <= Distance(next, stop, |t|) < Distance(ent, stop, |t|)
  {
    MaskIsNext(ent, |t|);
    var h := Home(name, |t|);
    assert !OnTheWay(h, stop, ent);
    assert forall k: nat :: k < |t| && OnTheWay(h, k, NextSlot(ent, |t|)) ==> k == ent || OnTheWay(h, k, ent);
  }

  lemma ProbeStart(d: Directory, t: Table, name: Bytes)
    requires IsPowerOf2(|t|)
    ensures |t| > 0 && And(HashOf(name) as nat, |t| - 1) == Home(name, |t|) < |t|
    ensures Probed(d, t, name, Home(name, |t|))
  {
    MaskIsModulo(HashOf(name) as nat, |t|);
  }

  // The loop both lookup and insertion run: to the name's slot, or to the empty slot that
  // ends its probe.
  method Probe(d: Directory, hashTable: array<ZipEntryName>, name: Bytes) returns (ent: nat)
    requires ValidTable(d, hashTable[..]) && HasRoom(hashTable[..])
    ensures ent < hashTable.Length && Probed(d, hashTable[..], name, ent)
    ensures hashTable[ent].Name? ==> HoldsName(d, hashTable[..], ent, name)
    ensures hashTable[ent].NoName? ==> !HasName(d, hashTable[..], name)
  {
    ghost var t := hashTable[..];
    ghost var stop: nat :| stop < |t| && t[stop].NoName?;
    ProbeStart(d, t, name);
    var hash := ComputeHash(name);
    ent := And(hash as nat, hashTable.Length - 1);
    hide Probed, IsPowerOf2, And, HashOf, Home, Distance, BytesOf;
    while hashTable[ent].Name? && BytesOf(d, hashTable[ent]) != name
      invariant ent < |t| && Probed(d, t, name, ent)
      decreases Distance(ent, stop, |t|)
    {
      ProbeStep(d, t, name, ent, stop);
      ent := And(ent + 1, hashTable.Length - 1);
    }
    if hashTable[ent].NoName? { AbsentAtEmpty(d, t, name, ent); }
  }

  // Looks a name up: the slot that holds it, or ENTRY_NOT_FOUND if none does.
  method EntryToIndex(d: Directory, hashTable: array<ZipEntryName>, name: Bytes) returns (r: int64)
    requires ValidTable(d, hashTable[..]) && HasRoom(hashTable[..])
    ensures r >= 0 <==> HasName(d, hashTable[..], name)
    ensures r >= 0 ==> (r as int) < hashTable.Length && HoldsName(d, hashTable[..], r as int, name)
    ensures r < 0 ==> r == ENTRY_NOT_FOUND as int64
  {
    var ent := Probe(d, hashTable, name);
    return if hashTable[ent].Name? then ent as int64 else ENTRY_NOT_FOUND as int64;
  }

  // ---- Inserting

  lemma InsertKeeps(d: Directory, t: Table, ent: nat, name: ZipEntryName)
    requires name.Name? && ValidTable(d, t) && ent < |t| && t[ent].NoName?
    requires Probed(d, t, BytesOf(d, name), ent)
    ensures ValidTable(d, t[ent := name])
  {
    var u := t[ent := name];
    AbsentAtEmpty(d, t, BytesOf(d, name), ent);
    hide IsPowerOf2, Home, BytesOf;
    forall i: nat | i < |u| ensures Reachable(d, u, i) {
      assert Reachable(d, t, i);
    }
    forall i: nat, j: nat | i < j < |u| && u[i].Name? && u[j].Name? ensures BytesOf(d, u[i]) != BytesOf(d, u[j]) {
      if i == ent { assert !HoldsName(d, t, j, BytesOf(d, name)); }
      if j == ent { assert !HoldsName(d, t, i, BytesOf(d, name)); }
    }
  }

  // Enters a name at the end of its probe, unless the probe meets it.
  method AddToHash(d: Directory, hashTable: array<ZipEntryName>, name: ZipEntryName) returns (r: int32, ent: nat)
    requires name.Name? && ValidTable(d, hashTable[..]) && HasRoom(hashTable[..])
    modifies hashTable
    ensures r == if HasName(d, old(hashTable[..]), BytesOf(d, name)) then DUPLICATE_ENTRY else 0
    ensures ent < hashTable.Length
    ensures r == 0 ==> old(hashTable[..])[ent].NoName? && hashTable[..] == old(hashTable[..])[ent := name]
    ensures r != 0 ==> hashTable[..] == old(hashTable[..])
    ensures ValidTable(d, hashTable[..])
  {
    ghost var t := hashTable[..];
    ent := Probe(d, hashTable, BytesOf(d, name));
    if hashTable[ent].Name? {
      return DUPLICATE_ENTRY, ent;
    }
    InsertKeeps(d, t, ent, name);
    hashTable[ent] := name;
    assert hashTable[..] == t[ent := name];
    r := 0;
  }

  // ---- Counting

  // How many slots are in use.
  function Used(t: Table): nat {
    if t == [] then 0 else Used(t[..|t| - 1]) + if t[|t| - 1].Name? then 1 else 0
  }

  // A table with fewer names than slots has an empty one.
  lemma {:induction false} RoomLeft(t: Table)
    requires Used(t) < |t|
    ensures HasRoom(t)
  {
    if t[|t| - 1].Name? {
      RoomLeft(t[..|t| - 1]);
      var i: nat :| i < |t| - 1 && t[..|t| - 1][i].NoName?;
      assert t[i].NoName?;
    }
  }

  lemma {:induction false} InsertCounts(t: Table, ent: nat, name: ZipEntryName)
    requires ent < |t| && t[ent].NoName? && name.Name?
    ensures Used(t[ent := name]) == Used(t) + 1
  {
    var last := |t| - 1;
    if ent < last {
      InsertCounts(t[..last], ent, name);
      assert t[ent := name][..last] == t[..last][ent := name];
    } else {
      assert t[ent := name][..last] == t[..last];
    }
  }

  lemma {:induction false} EmptyTable(d: Directory, t: Table)
    requires forall i :: 0 <= i < |t| ==> t[i].NoName?
    ensures Used(t) == 0
    ensures IsPowerOf2(|t|) && |t| < UINT32_COUNT ==> ValidTable(d, t)
  {
    if t != [] { EmptyTable(d, t[..|t| - 1]); }
  }

  function UsedSlots(t: Table): set<nat> {
    set i: nat | i < |t| && t[i].Name?
  }

  // It is the number of slots that hold a name.
  lemma {:induction false} UsedIsCount(t: Table)
    ensures Used(t) == |UsedSlots(t)|
  {
    if t != [] {
      var last := |t| - 1;
      UsedIsCount(t[..last]);
      assert UsedSlots(t) == UsedSlots(t[..last]) + if t[last].Name? then {last} else {};
    }
  }
}
