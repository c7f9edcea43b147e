/** Values of code points in a folded two-stage table, looked up while stepping over text. */
module Trie {
  import opened CInt
  import opened Utf16Text

  const SHIFT_SIZE: int := 0x20
  const INDEX_SCALE: int := 4
  const LEAD_INDEX_DISP: int := 0x2800 / SHIFT_SIZE
  const BMP_INDEX_LENGTH: int := 0x1_0000 / SHIFT_SIZE
  const SURROGATE_BLOCK_COUNT: int := 0x400 / SHIFT_SIZE

  // 'data' is the array the lookup reads: the 32-bit table, or, in a 16-bit trie, the index
  // array itself. 'foldingOffset' is the callback that finds a lead surrogate's index block.
  datatype UTrie = UTrie(index: seq<uint16>, data: seq<uint32>, wide: bool, initialValue: uint32,
                         foldingOffset: uint32 -> int32)

  // The index covers the BMP and the block for lead surrogate code points, and every data
  // block it names is there.
  ghost predicate TablesFit(t: UTrie) {
    && |t.index| >= BMP_INDEX_LENGTH + SURROGATE_BLOCK_COUNT
    && forall i :: 0 <= i < |t.index| ==> t.index[i] as int * INDEX_SCALE + SHIFT_SIZE <= |t.data|
  }

  function Raw(t: UTrie, offset: int, c16: int): uint32
    requires TablesFit(t) && 0 <= offset && 0 <= c16 && offset + c16 / SHIFT_SIZE < |t.index|
  {
    t.data[t.index[offset + c16 / SHIFT_SIZE] as int * INDEX_SCALE + c16 % SHIFT_SIZE]
  }

  // A trie as its builder leaves it: the index block a lead surrogate's value leads to is there too.
  ghost predicate WellFormed(t: UTrie) {
    && TablesFit(t)
    && forall c: uint16 :: IsLead(c) ==> t.foldingOffset(Raw(t, 0, c as int)) as int + SURROGATE_BLOCK_COUNT <= |t.index|
  }

  // A cast to the trie's result type.
  function AsResult(t: UTrie, v: uint32): uint32 {
    if t.wide then v else v % 0x1_0000
  }

  function FromBmp(t: UTrie, c16: int): uint32
    requires WellFormed(t) && 0 <= c16 <= 0xffff
  {
    Raw(t, if 0xd800 <= c16 <= 0xdbff then LEAD_INDEX_DISP else 0, c16)
  }

  // c2 is a trail surrogate or a whole code point; its low ten bits count.
  method GetFromPair(t: UTrie, c: uint16, c2: int) returns (result: uint32)
    requires WellFormed(t) && IsLead(c) && c2 >= 0
    ensures result == PairValue(t, c, c2 % 0x400)
  {
    result := Raw(t, 0, c as int);
    var offset := t.foldingOffset(result);
    if offset > 0 {
      result := Raw(t, offset as int, c2 % 0x400);
    } else {
      result := AsResult(t, t.initialValue);
    }
  }

  function PairValue(t: UTrie, c: uint16, low: int): uint32
    requires WellFormed(t) && IsLead(c) && 0 <= low < 0x400
  {
    var offset := t.foldingOffset(Raw(t, 0, c as int));
    if offset > 0 then Raw(t, offset as int, low) else AsResult(t, t.initialValue)
  }

  // The value of a code point: the simple lookup, which takes any 32-bit argument.
  function ValueOf(t: UTrie, c32: int): uint32
    requires WellFormed(t)
  {
    if 0 <= c32 <= 0xffff then FromBmp(t, c32)
    else if 0 <= c32 <= 0x10ffff then PairValue(t, LeadOf(c32), c32 % 0x400)
    else AsResult(t, t.initialValue)
  }

  lemma LeadIsLead(c: CodePoint)
    requires c > 0xffff
    ensures IsLead(LeadOf(c))
  {
  }

  method Get(t: UTrie, c32: int32) returns (result: uint32)
    requires WellFormed(t)
    ensures result == ValueOf(t, c32 as int)
  {
    var c := c32 as int % UINT32_COUNT;
    assert c == if c32 >= 0 then c32 as int else c32 as int + UINT32_COUNT;
    if 0xffff < c <= 0x10ffff { LeadIsLead(c); }
    hide PairValue, FromBmp, WellFormed, LeadOf, IsLead;
    if c <= 0xffff {
      result := FromBmp(t, c);
    } else if c <= 0x10ffff {
      result := GetFromPair(t, LeadOf(c), c);
    } else {
      result := AsResult(t, t.initialValue);
    }
  }

  lemma PairIsCodePoint(t: UTrie, c: uint16, c2: uint16)
    requires WellFormed(t) && IsLead(c) && IsTrail(c2)
    ensures ValueOf(t, CodePointOf(c, c2)) == PairValue(t, c, c2 as int % 0x400)
  {
    var p := CodePointOf(c, c2);
    DivisionIsUnique(p, 0x400, c as int - 0xd7c0, c2 as int - 0xdc00);
    DivisionIsUnique(c2 as int, 0x400, 0x37, c2 as int - 0xdc00);
  }

  lemma SingleIsCodePoint(t: UTrie, c: uint16)
    requires WellFormed(t)
    ensures ValueOf(t, CodePointOf(c, 0)) == Raw(t, if IsLead(c) then LEAD_INDEX_DISP else 0, c as int)
  {
  }

  // Main result: one fast step forward reads the first code point of the rest of the text
  // and its value.
  method Next(t: UTrie, s: Text, src: nat) returns (after: nat, c: uint16, c2: uint16, result: uint32)
    requires WellFormed(t) && src < |s|
    ensures c2 != 0 ==> IsLead(c) && IsTrail(c2)
    ensures src < after == src + FirstLength(s[src..]) <= |s|
    ensures [CodePointOf(c, c2)] + Forward(s[after..]) == Forward(s[src..])
    ensures result == ValueOf(t, CodePointOf(c, c2))
  {
    hide ValueOf, PairValue, Backward, CodePointOf;
    c := s[src];
    SingleIsCodePoint(t, c);
    after := src + 1;
    if !IsLead(c) {
      c2 := 0;
      result := Raw(t, 0, c as int);
    } else if after != |s| && IsTrail(s[after]) {
      c2 := s[after];
      after := after + 1;
      result := GetFromPair(t, c, c2 as int);
      PairIsCodePoint(t, c, c2);
    } else {
      c2 := 0;
      result := Raw(t, LEAD_INDEX_DISP, c as int);
    }
    assert s[src..][..after - src] == s[src..after] && s[src..][after - src..] == s[after..];
  }

  lemma SurrogateKinds(c: uint16)
    ensures IsSurrogate(c) <==> IsLead(c) || IsTrail(c)
    ensures IsSurrogate(c) ==> (IsSurrogateLead(c) <==> IsLead(c))
    ensures !(IsLead(c) && IsTrail(c)) && (IsTrail(c) ==> c != 0)
  {
  }

  // The last code point of the text up to src starts before it by one unit or two.
  lemma LastStep(s: Text, src: nat, before: nat, c: uint16, c2: uint16)
    requires 0 < src <= |s| && (c2 != 0 ==> IsLead(c) && IsTrail(c2))
    requires before == if src >= 2 && IsLead(s[src - 2]) && IsTrail(s[src - 1]) then src - 2 else src - 1
    requires c == s[before] && c2 == if before + 2 == src then s[before + 1] else 0
    ensures before + LastLength(s[..src]) == src
    ensures [CodePointOf(c, c2)] + Backward(s[..before]) == Backward(s[..src])
  {
    var u := s[..src];
    assert |u| == src && u[src - 1] == s[src - 1] && (src >= 2 ==> u[src - 2] == s[src - 2]);
    SurrogateKinds(s[src - 1]);
    hide CodePointOf, IsLead, IsTrail;
    assert u[..before] == s[..before] && u[before..] == s[before..src];
    assert Single(s[before..src]) == CodePointOf(c, c2);
  }

  // ... and one fast step backward the last one of the text before it, in agreement.
  method Previous(t: UTrie, s: Text, src: nat) returns (before: nat, c: uint16, c2: uint16, result: uint32)
    requires WellFormed(t) && 0 < src <= |s|
    ensures c2 != 0 ==> IsLead(c) && IsTrail(c2)
    ensures before < src && before + LastLength(s[..src]) == src
    ensures [CodePointOf(c, c2)] + Backward(s[..before]) == Backward(s[..src])
    ensures result == ValueOf(t, CodePointOf(c, c2))
  {
    before := src - 1;
    c := s[before];
    SingleIsCodePoint(t, c);
    SurrogateKinds(c);
    hide WellFormed, ValueOf, PairValue, Backward, CodePointOf, LastLength, IsLead, IsTrail, IsSurrogate, IsSurrogateLead;
    if !IsSurrogate(c) {
      c2 := 0;
      result := Raw(t, 0, c as int);
    } else if !IsSurrogateLead(c) {
      if 0 != before && IsLead(s[before - 1]) {
        c2 := s[before - 1];
        before := before - 1;
        c, c2 := c2, c;
        result := GetFromPair(t, c, c2 as int);
        PairIsCodePoint(t, c, c2);
      } else {
        c2 := 0;
        result := Raw(t, 0, c as int);
      }
    } else {
      c2 := 0;
      result := Raw(t, LEAD_INDEX_DISP, c as int);
    }
    LastStep(s, src, before, c, c2);
  }

  // ---- Whole walks

  function PairOf(t: UTrie, c: CodePoint): (CodePoint, uint32)
    requires WellFormed(t)
  {
    (c, ValueOf(t, c))
  }

  // The code points with their values.
  function Values(t: UTrie, cs: seq<CodePoint>): seq<(CodePoint, uint32)>
    requires WellFormed(t)
  {
    if cs == [] then [] else [PairOf(t, cs[0])] + Values(t, cs[1..])
  }

  lemma {:induction false} ValuesAppend(t: UTrie, cs: seq<CodePoint>, c: CodePoint)
    requires WellFormed(t)
    ensures Values(t, cs + [c]) == Values(t, cs) + [PairOf(t, c)]
  {
    if cs == [] {
      assert cs + [c] == [c];
    } else {
      assert (cs + [c])[1..] == cs[1..] + [c];
      ValuesAppend(t, cs[1..], c);
    }
  }

  lemma {:induction false} ValuesReversed(t: UTrie, cs: seq<CodePoint>)
    requires WellFormed(t)
    ensures Values(t, Reversed(cs)) == Reversed(Values(t, cs))
  {
    if cs != [] {
      ValuesReversed(t, cs[1..]);
      ValuesAppend(t, Reversed(cs[1..]), cs[0]);
    }
  }

  // Walking a text backward gives the pairs of code point and value met walking it forward,
  // in the opposite order.
  lemma DirectionsAgree(t: UTrie, s: Text)
    requires WellFormed(t)
    ensures Values(t, Backward(s)) == Reversed(Values(t, Forward(s)))
  {
    hide Forward, Backward, Values;
    BackwardIsReversed(s);
    ValuesReversed(t, Forward(s));
  }

  // Steps forward from the start to the end.
  method WalkForward(t: UTrie, s: Text) returns (pairs: seq<(CodePoint, uint32)>)
    requires WellFormed(t)
    ensures pairs == Values(t, Forward(s))
  {
    hide WellFormed, ValueOf, CodePointOf, FirstLength, Single, Forward, Values;
    pairs := [];
    var src := 0;
    assert s[0..] == s && s[|s|..] == [];
    NothingLeft(t);
    while src < |s|
      invariant src <= |s| && pairs + Values(t, Forward(s[src..])) == Values(t, Forward(s))
      decreases |s| - src
    {
      var after, c, c2, result := Next(t, s, src);
      StepTaken(t, CodePointOf(c, c2), Forward(s[after..]), pairs);
      pairs := pairs + [(CodePointOf(c, c2), result)];
      src := after;
    }
  }

  // Main result: stepping backward from the end gives the same code points with the same
  // values in the opposite order.
  method WalkBackward(t: UTrie, s: Text) returns (pairs: seq<(CodePoint, uint32)>)
    requires WellFormed(t)
    ensures pairs == Reversed(Values(t, Forward(s)))
  {
    DirectionsAgree(t, s);
    hide WellFormed, ValueOf, CodePointOf, LastLength, Single, Forward, Reversed, Values, Backward;
    pairs := [];
    var src := |s|;
    assert s[..src] == s && s[..0] == [];
    NothingLeft(t);
    while src > 0
      invariant src <= |s| && pairs + Values(t, Backward(s[..src])) == Values(t, Backward(s))
      decreases src
    {
      var before, c, c2, result := Previous(t, s, src);
      StepTaken(t, CodePointOf(c, c2), Backward(s[..before]), pairs);
      pairs := pairs + [(CodePointOf(c, c2), result)];
      src := before;
    }
  }

  lemma NothingLeft(t: UTrie)
    requires WellFormed(t)
    ensures Values(t, Forward([])) == [] && Values(t, Backward([])) == []
  {
  }

  // A pair moves from the list still to come to the list of those met.
  lemma StepTaken(t: UTrie, c: CodePoint, rest: seq<CodePoint>, met: seq<(CodePoint, uint32)>)
    requires WellFormed(t)
    ensures met + Values(t, [c] + rest) == met + [(c, ValueOf(t, c))] + Values(t, rest)
  {
    assert ([c] + rest)[1..] == rest;
  }

  // ---- What the tables hold

  // The 32 values of the data block that index entry i names.
  function BlockAt(t: UTrie, i: nat): seq<uint32>
    requires TablesFit(t) && i < |t.index|
  {
    t.data[t.index[i] as int * 4..t.index[i] as int * 4 + 32]
  }

  // The values of 32 code points from c on.
  function ValuesFrom(v: int -> uint32, c: int): seq<uint32> {
    seq(32, j requires 0 <= j < 32 => v(c + j))
  }

  // The tables lay out the values v: the first 0x800 index entries name the blocks of the BMP,
  // where lead surrogates stand for their pairs; the next 32 those of lead surrogate code points.
  ghost predicate LaysOutBmp(t: UTrie, v: int -> uint32)
    requires TablesFit(t)
  {
    && (forall i :: 0 <= i < 0x800 && !(0x6c0 <= i < 0x6e0) ==> BlockAt(t, i) == ValuesFrom(v, 32 * i))
    && (forall i :: 0x800 <= i < 0x820 ==> BlockAt(t, i) == ValuesFrom(v, 0xd800 + 32 * (i - 0x800)))
  }

  // What the BMP's table holds for lead surrogate number n leads to the index entries of its
  // 1024 pairs or, when it does not, they all have the initial value.
  ghost predicate LaysOutPairs(t: UTrie, v: int -> uint32, n: nat)
    requires TablesFit(t) && n < 0x400
  {
    var offset := t.foldingOffset(BlockAt(t, 0x6c0 + n / 32)[n % 32]) as int;
    if offset > 0 then
      offset + 32 <= |t.index| && forall i :: 0 <= i < 32 ==> BlockAt(t, offset + i) == ValuesFrom(v, 0x1_0000 + 0x400 * n + 32 * i)
    else
      forall c :: 0x1_0000 + 0x400 * n <= c < 0x1_0000 + 0x400 * (n + 1) ==>
        v(c) as int == if t.wide then t.initialValue as int else t.initialValue as int % 0x1_0000
  }

  ghost predicate LaysOut(t: UTrie, v: int -> uint32)
    requires TablesFit(t)
  {
    LaysOutBmp(t, v) && forall n: nat :: n < 0x400 ==> LaysOutPairs(t, v, n)
  }

  // A raw lookup reads the unit's place in the block its index entry names.
  lemma RawReadsBlock(t: UTrie, offset: int, c16: int)
    requires TablesFit(t) && 0 <= offset && 0 <= c16 && offset + c16 / 32 < |t.index|
    ensures Raw(t, offset, c16) == BlockAt(t, offset + c16 / 32)[c16 % 32]
  {
  }

  lemma BmpReadsBlock(t: UTrie, c: int)
    requires WellFormed(t) && 0 <= c <= 0xffff
    ensures FromBmp(t, c) == BlockAt(t, if 0xd800 <= c <= 0xdbff then 0x140 + c / 32 else c / 32)[c % 32]
  {
    RawReadsBlock(t, if 0xd800 <= c <= 0xdbff then 0x140 else 0, c);
    hide Raw, BlockAt, TablesFit, IsLead;
  }

  lemma BmpIsLaidOut(t: UTrie, v: int -> uint32, c: int)
    requires WellFormed(t) && LaysOutBmp(t, v) && 0 <= c <= 0xffff
    ensures FromBmp(t, c) == v(c)
  {
    var lead := 0xd800 <= c <= 0xdbff;
    var i := if lead then 0x140 + c / 32 else c / 32;
    BmpReadsBlock(t, c);
    hide FromBmp, BlockAt, WellFormed;
    assert BlockAt(t, i) == ValuesFrom(v, 32 * (c / 32));
    assert ValuesFrom(v, 32 * (c / 32))[c % 32] == v(32 * (c / 32) + c % 32);
  }

  // Where the value of lead surrogate number n stands, and where it leads.
  lemma LeadUnit(t: UTrie, n: nat)
    requires WellFormed(t) && n < 0x400
    ensures var c := (0xd800 + n) as uint16;
      && IsLead(c) && Raw(t, 0, c as int) == BlockAt(t, 0x6c0 + n / 32)[n % 32]
      && t.foldingOffset(Raw(t, 0, c as int)) as int + 32 <= |t.index|
  {
    DivisionIsUnique(0xd800 + n, 32, 0x6c0 + n / 32, n % 32);
    RawReadsBlock(t, 0, 0xd800 + n);
    assert IsLead((0xd800 + n) as uint16);
    hide Raw, BlockAt;
  }

  lemma PairReadsBlock(t: UTrie, n: nat, low: int)
    requires WellFormed(t) && n < 0x400 && 0 <= low < 0x400
    ensures IsLead((0xd800 + n) as uint16)
    ensures var offset := t.foldingOffset(BlockAt(t, 0x6c0 + n / 32)[n % 32]) as int;
      && offset + 32 <= |t.index|
      && PairValue(t, (0xd800 + n) as uint16, low) as int ==
         if offset > 0 then BlockAt(t, offset + low / 32)[low % 32] as int
         else if t.wide then t.initialValue as int else t.initialValue as int % 0x1_0000
  {
    LeadUnit(t, n);
    var offset := t.foldingOffset(Raw(t, 0, 0xd800 + n)) as int;
    if offset > 0 { RawReadsBlock(t, offset, low); }
    hide Raw, BlockAt, TablesFit, IsLead;
  }

  lemma PairIsLaidOut(t: UTrie, v: int -> uint32, n: nat, low: int)
    requires WellFormed(t) && n < 0x400 && LaysOutPairs(t, v, n) && 0 <= low < 0x400
    ensures IsLead((0xd800 + n) as uint16)
    ensures PairValue(t, (0xd800 + n) as uint16, low) == v(0x1_0000 + 0x400 * n + low)
  {
    PairReadsBlock(t, n, low);
    hide PairValue, BlockAt, TablesFit, IsLead;
    if t.foldingOffset(BlockAt(t, 0x6c0 + n / 32)[n % 32]) > 0 {
      var start := 0x1_0000 + 0x400 * n + 32 * (low / 32);
      assert ValuesFrom(v, start)[low % 32] == v(start + low % 32);
    }
  }

  // Main result: the lookup of a code point gives the value the tables lay out for it, whatever
  // its block, and so does every step over a text.
  lemma LookupIsLaidOut(t: UTrie, v: int -> uint32, c: CodePoint)
    requires WellFormed(t) && LaysOut(t, v)
    ensures ValueOf(t, c) == v(c)
  {
    if c <= 0xffff {
      BmpIsLaidOut(t, v, c);
    } else {
      var n := c / 0x400 - 0x40;
      assert LeadOf(c) as int == 0xd800 + n;
      PairIsLaidOut(t, v, n, c % 0x400);
    }
  }

  // ... and the tables lay out nothing but what lookups give, so every trie lays out its values.
  lemma BmpEntry(t: UTrie, v: int -> uint32, block: nat, i: nat, j: nat)
    requires WellFormed(t) && block < 0x800 && j < 32 && forall c: CodePoint :: ValueOf(t, c) == v(c)
    requires i == if 0x6c0 <= block < 0x6e0 then 0x140 + block else block
    ensures BlockAt(t, i)[j] == v(32 * block + j)
  {
    DivisionIsUnique(32 * block + j, 32, block, j);
    BmpReadsBlock(t, 32 * block + j);
    assert ValueOf(t, 32 * block + j) == v(32 * block + j);
    hide FromBmp, BlockAt, WellFormed;
  }

  lemma BmpBlock(t: UTrie, v: int -> uint32, block: nat, i: nat)
    requires WellFormed(t) && block < 0x800 && forall c: CodePoint :: ValueOf(t, c) == v(c)
    requires i == if 0x6c0 <= block < 0x6e0 then 0x140 + block else block
    ensures BlockAt(t, i) == ValuesFrom(v, 32 * block)
  {
    var found, values := BlockAt(t, i), ValuesFrom(v, 32 * block);
    assert |found| == 32;
    forall j: nat | j < 32 ensures found[j] == values[j] {
      BmpEntry(t, v, block, i, j);
      hide BlockAt, ValueOf, TablesFit, IsLead;
    }
  }

  lemma LaidOutBmp(t: UTrie, v: int -> uint32)
    requires WellFormed(t) && forall c: CodePoint :: ValueOf(t, c) == v(c)
    ensures LaysOutBmp(t, v)
  {
    hide BlockAt, ValueOf, ValuesFrom;
    forall i: nat | i < 0x800 && !(0x6c0 <= i < 0x6e0) ensures BlockAt(t, i) == ValuesFrom(v, 32 * i) {
      BmpBlock(t, v, i, i);
    }
    forall i: nat | 0x800 <= i < 0x820 ensures BlockAt(t, i) == ValuesFrom(v, 0xd800 + 32 * (i - 0x800)) {
      BmpBlock(t, v, i - 0x140, i);
    }
  }

  lemma PairEntry(t: UTrie, v: int -> uint32, n: nat, low: nat)
    requires WellFormed(t) && n < 0x400 && low < 0x400
    requires forall c: CodePoint :: ValueOf(t, c) == v(c)
    ensures IsLead((0xd800 + n) as uint16)
    ensures PairValue(t, (0xd800 + n) as uint16, low) == v(0x1_0000 + 0x400 * n + low)
  {
    DivisionIsUnique(0x1_0000 + 0x400 * n + low, 0x400, 0x40 + n, low);
    assert ValueOf(t, 0x1_0000 + 0x400 * n + low) == v(0x1_0000 + 0x400 * n + low);
    hide PairValue, WellFormed;
  }

  lemma PairPlace(t: UTrie, v: int -> uint32, n: nat, offset: int, low: nat)
    requires WellFormed(t) && n < 0x400 && low < 0x400
    requires offset == t.foldingOffset(BlockAt(t, 0x6c0 + n / 32)[n % 32]) as int > 0
    requires forall c: CodePoint :: ValueOf(t, c) == v(c)
    ensures offset + 32 <= |t.index| && BlockAt(t, offset + low / 32)[low % 32] == v(0x1_0000 + 0x400 * n + low)
  {
    PairReadsBlock(t, n, low);
    PairEntry(t, v, n, low);
    hide BlockAt, PairValue, ValueOf, TablesFit, IsLead, FromBmp, Raw;
  }

  lemma PairBlockEntry(t: UTrie, v: int -> uint32, n: nat, offset: int, i: nat, j: nat)
    requires WellFormed(t) && n < 0x400 && i < 32 && j < 32
    requires offset == t.foldingOffset(BlockAt(t, 0x6c0 + n / 32)[n % 32]) as int > 0
    requires forall c: CodePoint :: ValueOf(t, c) == v(c)
    ensures offset + 32 <= |t.index| && BlockAt(t, offset + i)[j] == v(0x1_0000 + 0x400 * n + 32 * i + j)
  {
    DivisionIsUnique(32 * i + j, 32, i, j);
    PairPlace(t, v, n, offset, 32 * i + j);
    hide BlockAt, ValueOf, TablesFit;
  }

  lemma PairBlock(t: UTrie, v: int -> uint32, n: nat, offset: int, i: nat)
    requires WellFormed(t) && n < 0x400 && i < 32
    requires offset == t.foldingOffset(BlockAt(t, 0x6c0 + n / 32)[n % 32]) as int > 0
    requires forall c: CodePoint :: ValueOf(t, c) == v(c)
    ensures offset + 32 <= |t.index| && BlockAt(t, offset + i) == ValuesFrom(v, 0x1_0000 + 0x400 * n + 32 * i)
  {
    PairReadsBlock(t, n, 0);
    var block, values := BlockAt(t, offset + i), ValuesFrom(v, 0x1_0000 + 0x400 * n + 32 * i);
    assert |block| == 32;
    forall j: nat | j < 32 ensures block[j] == values[j] {
      PairBlockEntry(t, v, n, offset, i, j);
      hide BlockAt, PairValue, ValueOf, TablesFit, IsLead;
    }
  }

  lemma NoPairBlock(t: UTrie, v: int -> uint32, n: nat, low: nat)
    requires WellFormed(t) && n < 0x400 && low < 0x400
    requires t.foldingOffset(BlockAt(t, 0x6c0 + n / 32)[n % 32]) <= 0
    requires forall c: CodePoint :: ValueOf(t, c) == v(c)
    ensures v(0x1_0000 + 0x400 * n + low) as int ==
      if t.wide then t.initialValue as int else t.initialValue as int % 0x1_0000
  {
    PairReadsBlock(t, n, low);
    PairEntry(t, v, n, low);
    hide BlockAt, PairValue, ValueOf, TablesFit, IsLead;
  }

  lemma PairBlocks(t: UTrie, v: int -> uint32, n: nat, offset: int)
    requires WellFormed(t) && n < 0x400
    requires offset == t.foldingOffset(BlockAt(t, 0x6c0 + n / 32)[n % 32]) as int > 0
    requires forall c: CodePoint :: ValueOf(t, c) == v(c)
    ensures offset + 32 <= |t.index|
    ensures forall i :: 0 <= i < 32 ==> BlockAt(t, offset + i) == ValuesFrom(v, 0x1_0000 + 0x400 * n + 32 * i)
  {
    PairReadsBlock(t, n, 0);
    hide *;
    forall i: nat | i < 32 ensures BlockAt(t, offset + i) == ValuesFrom(v, 0x1_0000 + 0x400 * n + 32 * i) {
      PairBlock(t, v, n, offset, i);
    }
  }

  lemma NoPairBlocks(t: UTrie, v: int -> uint32, n: nat)
    requires WellFormed(t) && n < 0x400 && t.foldingOffset(BlockAt(t, 0x6c0 + n / 32)[n % 32]) <= 0
    requires forall c: CodePoint :: ValueOf(t, c) == v(c)
    ensures forall c :: 0x1_0000 + 0x400 * n <= c < 0x1_0000 + 0x400 * (n + 1) ==>
      v(c) as int == if t.wide then t.initialValue as int else t.initialValue as int % 0x1_0000
  {
    hide *;
    forall c | 0x1_0000 + 0x400 * n <= c < 0x1_0000 + 0x400 * (n + 1)
      ensures v(c) as int == if t.wide then t.initialValue as int else t.initialValue as int % 0x1_0000
    {
      NoPairBlock(t, v, n, c - 0x1_0000 - 0x400 * n);
    }
  }

  lemma LaidOutPairs(t: UTrie, v: int -> uint32, n: nat)
    requires WellFormed(t) && n < 0x400 && forall c: CodePoint :: ValueOf(t, c) == v(c)
    ensures LaysOutPairs(t, v, n)
  {
    var offset := t.foldingOffset(BlockAt(t, 0x6c0 + n / 32)[n % 32]) as int;
    hide ValueOf, BlockAt, ValuesFrom, IsLead, FromBmp, PairValue, Raw;
    if offset > 0 { PairBlocks(t, v, n, offset); } else { NoPairBlocks(t, v, n); }
  }

  lemma LaysOutLookups(t: UTrie, v: int -> uint32)
    requires WellFormed(t)
    ensures LaysOut(t, v) <==> forall c: CodePoint :: ValueOf(t, c) == v(c)
  {
    hide ValueOf, LaysOutBmp, LaysOutPairs;
    if forall c: CodePoint :: ValueOf(t, c) == v(c) {
      LaidOutBmp(t, v);
      forall n: nat | n < 0x400 ensures LaysOutPairs(t, v, n) { LaidOutPairs(t, v, n); }
    }
    if LaysOut(t, v) {
      forall c: CodePoint ensures ValueOf(t, c) == v(c) { LookupIsLaidOut(t, v, c); }
    }
  }

  lemma {:induction false} ValuesAreLaidOut(t: UTrie, v: int -> uint32, cs: seq<CodePoint>)
    requires WellFormed(t) && LaysOut(t, v)
    ensures Values(t, cs) == seq(|cs|, i requires 0 <= i < |cs| => (cs[i], v(cs[i])))
  {
    hide ValueOf, LaysOut, WellFormed;
    if cs != [] {
      ValuesAreLaidOut(t, v, cs[1..]);
      LookupIsLaidOut(t, v, cs[0]);
    }
  }
}
