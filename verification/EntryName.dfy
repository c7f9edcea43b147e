/** Which byte strings are accepted as names of archive entries. */
module EntryName {
  import opened CInt

  type Bytes = seq<uint8>

  // The length a lead byte announces in section 2 of RFC 2279; 0 for NUL, for a
  // continuation byte and for FE and FF, which lead nothing.
  function SequenceLength(lead: uint8): nat {
    if lead == 0 then 0
    else if lead < 0x80 then 1
    else if lead < 0xC0 then 0
    else if lead < 0xE0 then 2
    else if lead < 0xF0 then 3
    else if lead < 0xF8 then 4
    else if lead < 0xFC then 5
    else if lead < 0xFE then 6
    else 0
  }

  predicate IsContinuation(b: uint8) {
    0x80 <= b < 0xC0
  }

  // One encoded character: a lead byte and the continuation bytes it announces.
  predicate IsSequence(s: Bytes) {
    && |s| > 0 && SequenceLength(s[0]) == |s|
    && forall i :: 1 <= i < |s| ==> IsContinuation(s[i])
  }

  function Flatten(parts: seq<Bytes>): Bytes {
    if parts == [] then [] else parts[0] + Flatten(parts[1..])
  }

  // A name: any number of encoded characters.
  ghost predicate IsEntryName(name: Bytes) {
    exists parts: seq<Bytes> :: (forall p :: p in parts ==> IsSequence(p)) && Flatten(parts) == name
  }

  // The same, decided one character at a time.
  predicate IsName(name: Bytes) {
    name == [] ||
    var n := SequenceLength(name[0]);
    0 < n <= |name| && IsSequence(name[..n]) && IsName(name[n..])
  }

  lemma {:induction false} NameFromParts(parts: seq<Bytes>)
    requires forall p :: p in parts ==> IsSequence(p)
    ensures IsName(Flatten(parts))
  {
    if parts != [] {
      var p, rest := parts[0], Flatten(parts[1..]);
      NameFromParts(parts[1..]);
      assert p in parts && (p + rest)[0] == p[0];
      assert (p + rest)[..|p|] == p && (p + rest)[|p|..] == rest;
    }
  }

  lemma {:induction false} PartsFromName(name: Bytes) returns (parts: seq<Bytes>)
    requires IsName(name)
    ensures (forall p :: p in parts ==> IsSequence(p)) && Flatten(parts) == name
  {
    if name == [] {
      parts := [];
    } else {
      var n := SequenceLength(name[0]);
      var rest := PartsFromName(name[n..]);
      parts := [name[..n]] + rest;
      assert parts[1..] == rest;
    }
  }

  lemma NameIsParts(name: Bytes)
    ensures IsName(name) <==> IsEntryName(name)
  {
    if IsName(name) {
      var parts := PartsFromName(name);
    }
    if IsEntryName(name) {
      var parts: seq<Bytes> :| (forall p :: p in parts ==> IsSequence(p)) && Flatten(parts) == name;
      NameFromParts(parts);
    }
  }

  // Names joined are a name, and so are the pieces when the first is one.
  lemma {:induction false} NamesConcatenate(a: Bytes, b: Bytes)
    requires IsName(a)
    ensures IsName(a + b) == IsName(b)
    decreases |a|
  {
    if a == [] {
      assert a + b == b;
    } else {
      var n := SequenceLength(a[0]);
      assert (a + b)[..n] == a[..n] && (a + b)[n..] == a[n..] + b;
      NamesConcatenate(a[n..], b);
    }
  }

  // byte << 1, in eight bits.
  function ShiftLeft(b: uint8): uint8 {
    ((b as int * 2) % 0x100) as uint8
  }

  // How many shifts it takes to clear the top bit: the number of leading ones.
  function LeadingOnes(b: uint8): nat
    decreases b
  {
    if b < 0x80 then 0 else 1 + LeadingOnes(ShiftLeft(b))
  }

  lemma {:induction false} LeadingOnesByRange(b: uint8)
    ensures LeadingOnes(b) ==
      if b < 0x80 then 0 else if b < 0xC0 then 1 else if b < 0xE0 then 2 else if b < 0xF0 then 3
      else if b < 0xF8 then 4 else if b < 0xFC then 5 else if b < 0xFE then 6 else if b < 0xFF then 7 else 8
    decreases b
  {
    if b >= 0x80 { LeadingOnesByRange(ShiftLeft(b)); }
  }

  // The inner loop: steps over the continuation bytes the byte at 'start' announces.
  method SkipContinuations(name: Bytes, start: nat) returns (ok: bool, i: nat)
    requires start < |name| && SequenceLength(name[start]) > 1
    ensures ok <==> start + SequenceLength(name[start]) <= |name| && IsSequence(name[start..start + SequenceLength(name[start])])
    ensures ok ==> i + 1 == start + SequenceLength(name[start])
  {
    ghost var n := SequenceLength(name[start]);
    i := start;
    var first := ShiftLeft(name[start]);
    LeadingOnesByRange(name[start]);
    assert LeadingOnes(first) == n - 1;
    hide SequenceLength, ShiftLeft;
    while first >= 0x80
      invariant start <= i < start + n && i < |name|
      invariant i - start + LeadingOnes(first) == n - 1
      invariant forall j :: start < j <= i ==> IsContinuation(name[j])
      decreases start + n - i
    {
      i := i + 1;
      if i == |name| {
        return false, i;
      }
      var continuationByte := name[i];
      if continuationByte / 0x40 != 2 {
        assert start + n <= |name| ==> name[start..start + n][i - start] == continuationByte;
        return false, i;
      }
      first := ShiftLeft(first);
    }
    ok := true;
  }

  // Main result: the scan accepts exactly the concatenations of NUL-free sequences of the
  // lead and continuation shapes.
  method IsValidEntryName(entryName: Bytes) returns (valid: bool)
    ensures valid == IsName(entryName)
    ensures valid <==> IsEntryName(entryName)
  {
    NameIsParts(entryName);
    hide IsEntryName;
    var i := 0;
    while i < |entryName|
      invariant 0 <= i <= |entryName| && IsName(entryName) == IsName(entryName[i..])
    {
      var byte := entryName[i];
      ghost var rest, n := entryName[i..], SequenceLength(byte);
      if byte == 0 {
        return false;
      } else if byte / 0x80 == 0 {
        assert n == 1 && rest[1..] == entryName[i + 1..];
      } else if byte / 0x40 == 2 || byte / 2 == 0x7f {
        return false;
      } else {
        assert i + n <= |entryName| ==> rest[..n] == entryName[i..i + n];
        var ok: bool;
        ok, i := SkipContinuations(entryName, i);
        if !ok {
          return false;
        }
        assert rest[n..] == entryName[i + 1..];
      }
      i := i + 1;
    }
    return true;
  }

  // ---- Which accepted names are encodings

  const SHORTEST_LIMITS: seq<nat> := [1, 0x80, 0x800, 0x1_0000, 0x20_0000, 0x400_0000, 0x8000_0000]
  const LEAD_BASES: seq<int> := [0, 0, 0xC0, 0xE0, 0xF0, 0xF8, 0xFC]

  // A character other than NUL.
  type Character = c: nat | 0 < c < 0x8000_0000 witness 1

  // The encoder uses the shortest sequence.
  function EncodedLength(c: Character): (n: nat)
    ensures 1 <= n <= 6 && SHORTEST_LIMITS[n - 1] <= c < SHORTEST_LIMITS[n]
  {
    if c < 0x80 then 1 else if c < 0x800 then 2 else if c < 0x1_0000 then 3
    else if c < 0x20_0000 then 4 else if c < 0x400_0000 then 5 else 6
  }

  function Pow64(k: nat): (p: nat)
    ensures p > 0
  {
    if k == 0 then 1 else 64 * Pow64(k - 1)
  }

  // The low k groups of six bits, as continuation bytes.
  function Tail(c: nat, k: nat): (t: Bytes)
    ensures |t| == k
  {
    if k == 0 then [] else Tail(c / 64, k - 1) + [(0x80 + c % 64) as uint8]
  }

  // The groups left for the lead byte.
  function Head(c: nat, k: nat): nat {
    if k == 0 then c else Head(c / 64, k - 1)
  }

  function TailValue(v: nat, t: Bytes): nat
    requires forall b :: b in t ==> IsContinuation(b)
  {
    if t == [] then v
    else
      assert IsContinuation(t[|t| - 1]);
      TailValue(v, t[..|t| - 1]) * 64 + (t[|t| - 1] as int - 0x80)
  }

  lemma {:induction false} HeadBound(c: nat, k: nat, m: nat)
    requires c < m * Pow64(k)
    ensures Head(c, k) < m
  {
    if k > 0 {
      assert m * Pow64(k) == 64 * (m * Pow64(k - 1));
      HeadBound(c / 64, k - 1, m);
    }
  }

  // The lead byte has room for what the tail leaves.
  lemma LeadHasRoom(c: Character)
    ensures var n := EncodedLength(c);
      n > 1 ==> LEAD_BASES[n] + Head(c, n - 1) < 0x100 && SequenceLength((LEAD_BASES[n] + Head(c, n - 1)) as uint8) == n
  {
    var n := EncodedLength(c);
    if n > 1 {
      RoomByLength(n);
      HeadBound(c, n - 1, LEAD_ROOM[n]);
    }
  }

  function Encode(c: Character): Bytes
  {
    var n := EncodedLength(c);
    LeadHasRoom(c);
    if n == 1 then [c as uint8] else [(LEAD_BASES[n] + Head(c, n - 1)) as uint8] + Tail(c, n - 1)
  }

  function Decode(p: Bytes): nat
    requires IsSequence(p)
  {
    if |p| == 1 then p[0] as nat
    else TailValue((p[0] as int - LEAD_BASES[|p|]) as nat, p[1..])
  }

  // The sequence is no longer than its character needs.
  predicate IsShortest(p: Bytes)
    requires IsSequence(p)
  {
    Decode(p) >= SHORTEST_LIMITS[|p| - 1]
  }

  lemma {:induction false} TailIsContinuation(c: nat, k: nat)
    ensures forall b :: b in Tail(c, k) ==> IsContinuation(b)
  {
    if k > 0 { TailIsContinuation(c / 64, k - 1); }
  }

  lemma {:induction false} TailOfValue(v: nat, t: Bytes)
    requires forall b :: b in t ==> IsContinuation(b)
    ensures Head(TailValue(v, t), |t|) == v && Tail(TailValue(v, t), |t|) == t
    ensures TailValue(v, t) < (v + 1) * Pow64(|t|)
  {
    if t != [] {
      var init, last := t[..|t| - 1], t[|t| - 1];
      assert last in t && IsContinuation(last);
      TailOfValue(v, init);
      DivisionIsUnique(TailValue(v, t), 64, TailValue(v, init), last as int - 0x80);
      TailBound(TailValue(v, init), last as int - 0x80, v + 1, |t|);
      assert t == init + [last];
      hide Pow64;
    }
  }

  lemma TailBound(x: nat, digit: nat, m: nat, k: nat)
    requires k > 0 && x < m * Pow64(k - 1) && digit < 64
    ensures x * 64 + digit < m * Pow64(k)
  {
    assert m * Pow64(k) == 64 * (m * Pow64(k - 1));
  }

  lemma {:induction false} ValueOfTail(c: nat, k: nat)
    requires forall b :: b in Tail(c, k) ==> IsContinuation(b)
    ensures TailValue(Head(c, k), Tail(c, k)) == c
  {
    if k > 0 {
      TailIsContinuation(c / 64, k - 1);
      ValueOfTail(c / 64, k - 1);
      assert Tail(c, k)[..k - 1] == Tail(c / 64, k - 1);
    }
  }

  // Encoding and decoding undo each other on the shortest sequences, which are exactly the encodings.
  lemma EncodeThenDecode(c: Character)
    ensures IsSequence(Encode(c)) && Decode(Encode(c)) == c && IsShortest(Encode(c))
  {
    var n := EncodedLength(c);
    LeadHasRoom(c);
    if n > 1 {
      TailIsContinuation(c, n - 1);
      ValueOfTail(c, n - 1);
      var e := Encode(c);
      assert e[1..] == Tail(c, n - 1);
      forall i | 1 <= i < n ensures IsContinuation(e[i]) { assert e[i] == Tail(c, n - 1)[i - 1]; }
    }
  }

  // How many values the lead byte of a sequence of n bytes has room for.
  const LEAD_ROOM: seq<nat> := [0, 0, 0x20, 0x10, 8, 4, 2]

  lemma RoomByLength(n: nat)
    requires 2 <= n <= 6
    ensures LEAD_ROOM[n] * Pow64(n - 1) == SHORTEST_LIMITS[n]
  {
    assert Pow64(1) == 64 && Pow64(2) == 0x1000;
    assert Pow64(3) == 0x4_0000 && Pow64(4) == 0x100_0000;
    assert Pow64(5) == 0x4000_0000;
  }

  lemma LeadInRoom(lead: uint8)
    requires SequenceLength(lead) > 1
    ensures 0 <= lead as int - LEAD_BASES[SequenceLength(lead)] < LEAD_ROOM[SequenceLength(lead)]
  {
  }

  lemma ValueInRoom(v: nat, c: nat, n: nat)
    requires 2 <= n <= 6 && v < LEAD_ROOM[n] && c < (v + 1) * Pow64(n - 1)
    ensures c < SHORTEST_LIMITS[n]
  {
    RoomByLength(n);
    assert (v + 1) * Pow64(n - 1) <= LEAD_ROOM[n] * Pow64(n - 1);
  }

  // Between two limits the encoder's length is fixed.
  lemma LengthBetween(c: Character, n: nat)
    requires 1 <= n <= 6 && SHORTEST_LIMITS[n - 1] <= c < SHORTEST_LIMITS[n]
    ensures EncodedLength(c) == n
  {
  }

  // What the lead byte holds of the character.
  function LeadValue(lead: uint8, n: nat): int
    requires n <= 6
  {
    lead as int - LEAD_BASES[n]
  }

  lemma EncodeBy(c: Character, lead: uint8, t: Bytes)
    requires var n := EncodedLength(c);
      n > 1 && Head(c, n - 1) == LeadValue(lead, n) && Tail(c, n - 1) == t
    ensures Encode(c) == [lead] + t
  {
  }

  lemma DecodeThenEncode(p: Bytes)
    requires IsSequence(p) && IsShortest(p)
    ensures 0 < Decode(p) < 0x8000_0000 && Encode(Decode(p)) == p
  {
    var n := |p|;
    if n > 1 {
      LeadInRoom(p[0]);
      var v := LeadValue(p[0], n);
      assert Decode(p) == TailValue(v, p[1..]);
      TailOfValue(v, p[1..]);
      ValueInRoom(v, Decode(p), n);
      LimitsAreCharacters(n);
      hide SequenceLength, Tail, Head, TailValue, Pow64, EncodedLength, Encode, Decode, LeadValue;
      LengthBetween(Decode(p), n);
      EncodeBy(Decode(p), p[0], p[1..]);
      assert p == [p[0]] + p[1..];
    }
  }

  lemma LimitsAreCharacters(n: nat)
    requires 1 <= n <= 6
    ensures 1 <= SHORTEST_LIMITS[n - 1] <= SHORTEST_LIMITS[n] <= 0x8000_0000
  {
  }

  // Group k of six bits from the high end stands in continuation byte k, and the lead byte
  // holds what is left (section 2 of RFC 2279).
  lemma {:induction false} TailLayout(c: nat, k: nat, i: nat)
    requires i < k
    ensures Tail(c, k)[i] as nat == 0x80 + c / Pow64(k - 1 - i) % 64
  {
    if i < k - 1 {
      TailLayout(c / 64, k - 1, i);
      assert Tail(c, k)[i] == Tail(c / 64, k - 1)[i];
      DivideBy64(c, Pow64(k - 2 - i));
    }
  }

  lemma {:induction false} HeadLayout(c: nat, k: nat)
    ensures Head(c, k) == c / Pow64(k)
  {
    if k > 0 {
      HeadLayout(c / 64, k - 1);
      DivideBy64(c, Pow64(k - 1));
    }
  }

  lemma DivideBy64(c: nat, b: nat)
    requires b > 0
    ensures c / 64 / b == c / (64 * b)
  {
    var q, r := c / 64 / b, c / 64 % b;
    assert c == 64 * (b * q + r) + c % 64;
    assert 64 * (b * q) == 64 * b * q;
    DivisionIsUnique(c, 64 * b, q, 64 * r + c % 64);
  }

  lemma EncodingLayout(c: Character)
    ensures var n, e := EncodedLength(c), Encode(c);
      && |e| == n
      && e[0] as nat == [0, 0, 0xC0, 0xE0, 0xF0, 0xF8, 0xFC][n] + c / Pow64(n - 1)
      && forall i :: 1 <= i < n ==> e[i] as nat == 0x80 + c / Pow64(n - 1 - i) % 64
  {
    var n, e := EncodedLength(c), Encode(c);
    LeadHasRoom(c);
    HeadLayout(c, n - 1);
    assert Pow64(0) == 1;
    forall i | 1 <= i < n ensures e[i] as nat == 0x80 + c / Pow64(n - 1 - i) % 64 {
      TailLayout(c, n - 1, i - 1);
      assert e[i] == Tail(c, n - 1)[i - 1];
    }
  }

  function EncodeAll(cs: seq<Character>): Bytes {
    if cs == [] then [] else Encode(cs[0]) + EncodeAll(cs[1..])
  }

  predicate AllShortest(name: Bytes)
    requires IsName(name)
  {
    name == [] ||
    var n := SequenceLength(name[0]);
    IsShortest(name[..n]) && AllShortest(name[n..])
  }

  // Every text of non-zero characters is accepted.
  lemma {:induction false} EncodingsAccepted(cs: seq<Character>)
    ensures IsName(EncodeAll(cs)) && AllShortest(EncodeAll(cs))
  {
    if cs != [] {
      var e, rest := Encode(cs[0]), EncodeAll(cs[1..]);
      EncodeThenDecode(cs[0]);
      EncodingsAccepted(cs[1..]);
      hide Encode, IsShortest, Decode;
      assert (e + rest)[..|e|] == e && (e + rest)[|e|..] == rest && (e + rest)[0] == e[0];
    }
  }

  lemma {:induction false} TextOfName(name: Bytes) returns (cs: seq<Character>)
    requires IsName(name) && AllShortest(name)
    ensures EncodeAll(cs) == name
  {
    if name == [] {
      cs := [];
    } else {
      var n := SequenceLength(name[0]);
      DecodeThenEncode(name[..n]);
      var c: Character := Decode(name[..n]);
      hide Encode, Decode, IsShortest, SequenceLength;
      var rest := TextOfName(name[n..]);
      cs := [c] + rest;
      assert cs[1..] == rest && name == name[..n] + name[n..];
    }
  }

  // An accepted name is the encoding of a text exactly when it uses shortest sequences,
  // which the scan does not ask: C0 80 is accepted.
  lemma AcceptedText(name: Bytes)
    requires IsName(name)
    ensures (exists cs :: EncodeAll(cs) == name) <==> AllShortest(name)
    ensures IsName([0xC0, 0x80]) && !AllShortest([0xC0, 0x80])
  {
    if AllShortest(name) {
      var cs := TextOfName(name);
    }
    forall cs | EncodeAll(cs) == name ensures AllShortest(name) { EncodingsAccepted(cs); }
    var overlong: Bytes := [0xC0, 0x80];
    assert overlong[..2] == overlong && overlong[2..] == [] && overlong[1..] == [0x80];
    assert TailValue(0, [0x80]) == 0 by { assert [0x80 as uint8][..0] == []; }
  }
}
