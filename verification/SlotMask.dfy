/** The framebuffer's slots, kept as the bits of a 32-bit mask. The masks are shifted in an
    'unsigned long' of w bits, where shifting by w or more is undefined. */
module SlotMask {
  import opened CInt
  import opened Words
  import opened Bits
  import opened Options

  // The first clear bit from i on, below n; n if there is none.
  function FirstClear(mask: nat, i: nat, n: nat): nat
    requires i <= n
    decreases n - i
  {
    if i == n || !Bit(mask, i) then i else FirstClear(mask, i + 1, n)
  }

  // The slot the next allocation takes, if it is not refused; for n below the word width.
  function AllocSlot(mask: nat, n: nat): Option<nat> {
    if mask >= Pow2(n) - 1 then None else Some(FirstClear(mask, 0, n))
  }

  // mask |= 1 << slot, computed in a word and stored in 32 bits.
  function Taken(mask: nat, slot: nat): nat {
    Or(mask, Pow2(slot)) % Pow2(32)
  }

  // mask &= ~(1 << slot)
  function Released(mask: nat, slot: nat): nat {
    Clear(mask, Pow2(slot))
  }

  // ---- The same allocator, kept as a plain set

  datatype Op = Alloc | Free(slot: nat)

  ghost predicate Represents(mask: nat, live: set<nat>, n: nat) {
    && mask < Pow2(32)
    && (forall i: nat :: Bit(mask, i) <==> i in live)
    && (forall i: nat :: i in live ==> i < n)
  }

  // A refused allocation finds every slot live; a granted one takes the least slot that is not.
  ghost predicate IsLeastFree(live: set<nat>, n: nat, slot: Option<nat>) {
    match slot
    case None => forall i: nat :: i < n ==> i in live
    case Some(s) => s < n && s !in live && forall i: nat :: i < s ==> i in live
  }

  lemma {:induction false} FirstClearIsFirst(mask: nat, i: nat, n: nat)
    requires i <= n
    ensures var s := FirstClear(mask, i, n);
      && i <= s <= n && (forall j: nat :: i <= j < s ==> Bit(mask, j)) && (s < n ==> !Bit(mask, s))
    decreases n - i
  {
    if i < n && Bit(mask, i) { FirstClearIsFirst(mask, i + 1, n); }
  }

  // A mask of n bits is full exactly when it reaches 2^n - 1.
  lemma FullMask(mask: nat, live: set<nat>, n: nat)
    requires n <= 32 && Represents(mask, live, n)
    ensures mask >= Pow2(n) - 1 <==> forall i: nat :: i < n ==> i in live
  {
    BelowPow2(mask, n);
    if forall i: nat :: i < n ==> i in live {
      forall i: nat ensures Bit(mask, i) == Bit(Pow2(n) - 1, i) { MaskBit(n, i); }
      SameBits(mask, Pow2(n) - 1);
    }
    if mask >= Pow2(n) - 1 {
      assert mask == Pow2(n) - 1;
      forall i: nat | i < n ensures i in live { MaskBit(n, i); assert Bit(mask, i); }
    }
  }

  // The test against 2^n - 1 and the search agree with the set.
  lemma AllocIsLeastFree(mask: nat, live: set<nat>, n: nat)
    requires n <= 32 && Represents(mask, live, n)
    ensures IsLeastFree(live, n, AllocSlot(mask, n))
  {
    FullMask(mask, live, n);
    FirstClearIsFirst(mask, 0, n);
  }

  lemma TakenRepresents(mask: nat, live: set<nat>, n: nat, slot: nat)
    requires n <= 32 && Represents(mask, live, n) && slot < n
    ensures Represents(Taken(mask, slot), live + {slot}, n)
  {
    var m := Or(mask, Pow2(slot));
    forall i: nat ensures Bit(m, i) <==> i in live + {slot} {
      OrBit(mask, Pow2(slot), i);
      Pow2Bit(slot, i);
    }
    hide Or, Pow2;
    BelowPow2(m, 32);
    DivisionIsUnique(m, Pow2(32), 0, m);
  }

  lemma ReleasedRepresents(mask: nat, live: set<nat>, n: nat, slot: nat)
    requires Represents(mask, live, n)
    ensures Represents(Released(mask, slot), live - {slot}, n)
  {
    var m := Released(mask, slot);
    forall i: nat ensures Bit(m, i) <==> i in live - {slot} {
      ClearBit(mask, Pow2(slot), i);
      Pow2Bit(slot, i);
    }
    forall i: nat | i >= 32 ensures !Bit(m, i) { NoHighBits(mask, 32, i); assert i !in live; }
    BelowPow2(m, 32);
  }

  // ---- Runs

  // The mask after an operation, or none where a shift is undefined. Releasing shifts an 'int',
  // up to its sign bit.
  function StepMask(w: nat, mask: nat, n: nat, op: Op): Option<nat>
    requires IsWord(w)
  {
    match op
    case Alloc =>
      if n >= w then None
      else var s := AllocSlot(mask, n); Some(if s.Some? then Taken(mask, s.value) else mask)
    case Free(slot) => if slot >= 32 then None else Some(Released(mask, slot))
  }

  function RunMask(w: nat, mask: nat, n: nat, ops: seq<Op>): Option<nat>
    requires IsWord(w)
    decreases |ops|
  {
    if ops == [] then Some(mask)
    else
      var next := StepMask(w, mask, n, ops[0]);
      if next.None? then None else RunMask(w, next.value, n, ops[1..])
  }

  // Callers release slots they were given.
  predicate LegalOps(n: nat, ops: seq<Op>) {
    forall i :: 0 <= i < |ops| && ops[i].Free? ==> ops[i].slot < n
  }

  // The set after the same operations, where an allocation adds the least slot that is free.
  ghost predicate RunSet(n: nat, live: set<nat>, ops: seq<Op>, end: set<nat>)
    decreases |ops|
  {
    if ops == [] then end == live
    else match ops[0]
      case Alloc =>
        exists s: Option<nat> ::
          IsLeastFree(live, n, s) && RunSet(n, if s.Some? then live + {s.value} else live, ops[1..], end)
      case Free(slot) => RunSet(n, live - {slot}, ops[1..], end)
  }

  // For up to 32 buffers, and fewer than a word has bits, the mask is the set of live slots
  // after any run.
  lemma {:induction false} MaskIsLiveSet(w: nat, mask: nat, live: set<nat>, n: nat, ops: seq<Op>) returns (end: set<nat>)
    requires IsWord(w) && n <= 32 && n < w && Represents(mask, live, n) && LegalOps(n, ops)
    ensures RunSet(n, live, ops, end)
    ensures var r := RunMask(w, mask, n, ops); r.Some? && Represents(r.value, end, n)
    decreases |ops|
  {
    hide Represents, Taken, Released, AllocSlot, IsLeastFree;
    if ops == [] {
      end := live;
    } else if ops[0].Alloc? {
      var s := AllocSlot(mask, n);
      AllocIsLeastFree(mask, live, n);
      if s.Some? {
        SlotIsBelow(live, n, s);
        TakenRepresents(mask, live, n, s.value);
        end := MaskIsLiveSet(w, Taken(mask, s.value), live + {s.value}, n, ops[1..]);
      } else {
        end := MaskIsLiveSet(w, mask, live, n, ops[1..]);
      }
    } else {
      ReleasedRepresents(mask, live, n, ops[0].slot);
      end := MaskIsLiveSet(w, Released(mask, ops[0].slot), live - {ops[0].slot}, n, ops[1..]);
    }
  }

  lemma SlotIsBelow(live: set<nat>, n: nat, slot: Option<nat>)
    requires IsLeastFree(live, n, slot) && slot.Some?
    ensures slot.value < n
  {
  }

  // Adding the next bit to a full mask.
  lemma NextBitFills(k: nat)
    ensures Or(Pow2(k) - 1, Pow2(k)) == Pow2(k + 1) - 1
  {
    var m := Or(Pow2(k) - 1, Pow2(k));
    forall i: nat ensures Bit(m, i) == Bit(Pow2(k + 1) - 1, i) {
      OrBit(Pow2(k) - 1, Pow2(k), i);
      MaskBit(k, i);
      MaskBit(k + 1, i);
      Pow2Bit(k, i);
    }
    SameBits(m, Pow2(k + 1) - 1);
  }

  lemma FullMaskRepeats(n: nat, k: nat)
    requires n > k
    ensures FirstClear(Pow2(k) - 1, 0, n) == k && Or(Pow2(k) - 1, Pow2(k)) % Pow2(k) == Pow2(k) - 1
    ensures Pow2(k) < Pow2(n)
  {
    var s := FirstClear(Pow2(k) - 1, 0, n);
    Pow2Grows(k, n);
    FirstClearIsFirst(Pow2(k) - 1, 0, n);
    MaskBit(k, s);
    MaskBit(k, k);
    NextBitFills(k);
    DivisionIsUnique(Pow2(k + 1) - 1, Pow2(k), 1, Pow2(k) - 1);
  }

  // k allocations in a row.
  function Allocs(k: nat): seq<Op> {
    if k == 0 then [] else [Alloc] + Allocs(k - 1)
  }

  // From the first j slots, allocating goes on to the first k while the mask has bits for them.
  lemma {:induction false} AllocsFill(j: nat, k: nat, n: nat)
    requires j <= k <= 32 < n < 64
    ensures RunMask(64, Pow2(j) - 1, n, Allocs(k - j)) == Some(Pow2(k) - 1)
    decreases k - j
  {
    hide Pow2, Or, FirstClear;
    if j < k {
      OneAllocFills(j, n);
      AllocsFill(j + 1, k, n);
    }
  }

  lemma AllocsFillMask(n: nat)
    requires 32 < n < 64
    ensures RunMask(64, 0, n, Allocs(32)) == Some(Pow2(32) - 1)
  {
    hide RunMask, Allocs;
    assert Pow2(0) == 1;
    AllocsFill(0, 32, n);
  }

  lemma OneAllocFills(j: nat, n: nat)
    requires j < 32 < n < 64
    ensures StepMask(64, Pow2(j) - 1, n, Alloc) == Some(Pow2(j + 1) - 1)
  {
    hide Pow2, Or, FirstClear;
    FullMaskRepeats(n, j);
    NextBitFills(j);
    if j + 1 < 32 { Pow2Grows(j + 1, 32); }
    DivisionIsUnique(Pow2(j + 1) - 1, Pow2(32), 0, Pow2(j + 1) - 1);
  }

  // In 64-bit words, with more buffers than mask bits, a run gets to the full mask, and then the
  // 33rd slot is handed out but never recorded, so that every later allocation hands it out again.
  lemma WideMaskRepeats(n: nat, more: nat)
    requires 32 < n < 64
    ensures var mask := RunMask(64, 0, n, Allocs(32 + more));
      mask.Some? && AllocSlot(mask.value, n) == Some(32) && Taken(mask.value, 32) == mask.value
  {
    hide Pow2, Or, FirstClear, RunMask, StepMask, Allocs, AllocSlot, Taken;
    AllocsFillMask(n);
    FullMaskSlot(n);
    FullStays(n, more);
    AllocsJoin(64, 0, n, 32, more);
  }

  lemma FullMaskSlot(n: nat)
    requires n > 32
    ensures AllocSlot(Pow2(32) - 1, n) == Some(32) && Taken(Pow2(32) - 1, 32) == Pow2(32) - 1
  {
    hide Pow2, Or, FirstClear;
    FullMaskRepeats(n, 32);
  }

  lemma {:induction false} FullStays(n: nat, more: nat)
    requires 32 < n < 64
    ensures RunMask(64, Pow2(32) - 1, n, Allocs(more)) == Some(Pow2(32) - 1)
  {
    hide Pow2, Or, FirstClear, AllocSlot, Taken;
    if more > 0 {
      FullMaskSlot(n);
      FullStays(n, more - 1);
    }
  }

  lemma {:induction false} AllocsJoin(w: nat, mask: nat, n: nat, j: nat, k: nat)
    requires IsWord(w)
    ensures var first := RunMask(w, mask, n, Allocs(j));
      RunMask(w, mask, n, Allocs(j + k)) == if first.None? then None else RunMask(w, first.value, n, Allocs(k))
    decreases j
  {
    hide StepMask;
    if j > 0 {
      var next := StepMask(w, mask, n, Alloc);
      if next.Some? { AllocsJoin(w, next.value, n, j - 1, k); }
    }
  }

  // In the plain set the same allocations take one slot after the other.
  lemma {:induction false} AllocsTake(j: nat, k: nat, n: nat, live: set<nat>, end: set<nat>)
    requires j <= k <= n && (forall i: nat :: i in live <==> i < j)
    requires RunSet(n, live, Allocs(k - j), end)
    ensures forall i: nat :: i in end <==> i < k
    decreases k - j
  {
    if j < k {
      var s: Option<nat> :|
        IsLeastFree(live, n, s) && RunSet(n, if s.Some? then live + {s.value} else live, Allocs(k - j)[1..], end);
      assert j !in live;
      assert s == Some(j);
      AllocsTake(j + 1, k, n, live + {j}, end);
    }
  }

  // Every shift of the run is defined, and some set follows it and is the mask.
  ghost predicate MaskFollows(w: nat, n: nat, ops: seq<Op>)
    requires IsWord(w)
  {
    var r := RunMask(w, 0, n, ops);
    r.Some? && exists end: set<nat> :: RunSet(n, {}, ops, end) && Represents(r.value, end, n)
  }

  lemma WideMaskFails(n: nat)
    requires 32 < n < 64
    ensures !MaskFollows(64, n, Allocs(33))
  {
    hide Pow2, Or, FirstClear, RunMask, RunSet, AllocSlot, Taken;
    forall end: set<nat>, m: nat | RunSet(n, {}, Allocs(33), end) ensures !Represents(m, end, n) {
      AllocsTake(0, 33, n, {}, end);
      if Represents(m, end, n) {
        assert 32 in end;
        NoHighBits(m, 32, 32);
      }
    }
  }

  // Main result: from the empty mask, every run is defined and leaves the mask equal to the set
  // of live slots if and only if there are at most 32 buffers and fewer than a word has bits.
  lemma MaskFollowsUpTo32(w: nat, n: nat)
    requires IsWord(w)
    ensures (forall ops: seq<Op> :: LegalOps(n, ops) ==> MaskFollows(w, n, ops)) <==> n <= 32 && n < w
  {
    hide RunMask, RunSet, Represents;
    if n <= 32 && n < w {
      EmptyMask(n);
      forall ops: seq<Op> | LegalOps(n, ops) ensures MaskFollows(w, n, ops) {
        var end := MaskIsLiveSet(w, 0, {}, n, ops);
      }
    } else if n >= w {
      UndefinedFromW(w, n);
    } else {
      WideMaskFails(n);
      AllocsAreLegal(n, 33);
    }
  }

  // With as many buffers as a word has bits, the first allocation is undefined: 32 of them in
  // the 32-bit build.
  lemma UndefinedFromW(w: nat, n: nat)
    requires IsWord(w) && n >= w
    ensures LegalOps(n, [Alloc]) && !MaskFollows(w, n, [Alloc])
  {
  }

  lemma {:induction false} AllocsAreLegal(n: nat, k: nat)
    ensures LegalOps(n, Allocs(k))
  {
    if k > 0 { AllocsAreLegal(n, k - 1); }
  }

  lemma EmptyMask(n: nat)
    ensures Represents(0, {}, n)
  {
    forall i: nat ensures !Bit(0, i) { ZeroBit(i); }
  }
}
