/** Framebuffer handles over one mapping: allocation, release and posting, in words of w bits. */
module Framebuffer {
  import opened CInt
  import opened Bits
  import opened Options
  import opened SlotMask
  import opened Words

  const ENOMEM: int32 := 12
  const PAGE_SIZE: int := 4096

  class Handle {
    var isFramebuffer: bool
    // An address kept in 64 bits.
    var base: nat
    var offset: int32

    constructor (isFramebuffer: bool)
      ensures this.isFramebuffer == isFramebuffer && base == 0 && offset == 0
    {
      this.isFramebuffer := isFramebuffer;
      base, offset := 0, 0;
    }
  }

  // A product of two 32-bit unsigned numbers, which wraps before it is widened.
  function Mul32(a: uint32, b: uint32): nat {
    (a as int * b as int) % UINT32_COUNT
  }

  // The least whole number of pages not below x, or 0 when a word cannot hold it.
  function RoundUpToPageSize(w: nat, x: nat): (r: nat)
    requires IsWord(w)
    ensures r % PAGE_SIZE == 0 && (r > 0 && x < UINT32_COUNT ==> x <= r < x + PAGE_SIZE)
  {
    PagesFitWords(w, x);
    (x + PAGE_SIZE - 1) / PAGE_SIZE * PAGE_SIZE % Modulus(w)
  }

  lemma RoundsUp(w: nat, x: nat)
    requires IsWord(w) && x < UINT32_COUNT
    ensures var r := RoundUpToPageSize(w, x);
      if x <= Modulus(w) - PAGE_SIZE then x <= r < x + PAGE_SIZE else r == 0
  {
    PagesFitWords(w, x);
    DivisionAtMost(x + PAGE_SIZE - 1, PAGE_SIZE, UINT32_COUNT / PAGE_SIZE);
  }

  lemma PagesFitWords(w: nat, x: nat)
    requires IsWord(w)
    ensures var up := (x + PAGE_SIZE - 1) / PAGE_SIZE * PAGE_SIZE;
      && up % Modulus(w) % PAGE_SIZE == 0
      && (x < UINT32_COUNT ==> up % Modulus(w) == if up < Modulus(w) then up else 0)
  {
    var pages := (x + PAGE_SIZE - 1) / PAGE_SIZE;
    WholePages(pages, if w == 32 then 0x10_0000 else 0x10_0000_0000_0000);
    if x < UINT32_COUNT {
      DivisionAtMost(x + PAGE_SIZE - 1, PAGE_SIZE, UINT32_COUNT / PAGE_SIZE);
      PagesWrap(w, pages);
    }
  }

  lemma DivisionAtMost(x: nat, n: nat, q: nat)
    requires n > 0 && x < n * (q + 1)
    ensures x / n <= q
  {
    assert n * (x / n) < n * (q + 1);
  }

  lemma PagesWrap(w: nat, pages: nat)
    requires IsWord(w) && pages <= UINT32_COUNT / PAGE_SIZE
    ensures var up := pages * PAGE_SIZE; up % Modulus(w) == if up < Modulus(w) then up else 0
  {
    var up, m := pages * PAGE_SIZE, Modulus(w);
    if up < m { DivisionIsUnique(up, m, 0, up); } else { DivisionIsUnique(up, m, 1, 0); }
  }

  lemma WholePages(pages: nat, m: nat)
    requires m > 0
    ensures pages * PAGE_SIZE % (m * PAGE_SIZE) % PAGE_SIZE == 0
  {
    assert pages == m * (pages / m) + pages % m;
    DivisionIsUnique(pages * PAGE_SIZE, m * PAGE_SIZE, pages / m, pages % m * PAGE_SIZE);
    DivisionIsUnique(pages % m * PAGE_SIZE, PAGE_SIZE, pages % m, 0);
  }

  // What the driver answers: an error on the way, or its geometry, with the memory it has, the
  // error number left behind by an earlier call, and the address the memory is mapped at or
  // why it is not.
  datatype Driver =
    | Refuses(errno: int32)
    | Reports(line: uint32, height: uint32, virtualHeight: uint32, smemLen: uint32, leftover: int32, address: Mapped)

  datatype Mapped = At(address: nat) | NotMapped(errno: int32)

  // The driver's errors are positive, and a mapping lies in the address space.
  predicate Legal(w: nat, driver: Driver)
    requires IsWord(w)
  {
    match driver
    case Refuses(errno) => errno > 0
    case Reports(line, height, virtualHeight, _, leftover, mapped) =>
      && height > 0 && leftover >= 0 && (mapped.NotMapped? ==> mapped.errno > 0)
      && (mapped.At? ==>
            var size := RoundUpToPageSize(w, Mul32(line, virtualHeight));
            size > 0 && mapped.address + size <= Modulus(w))
  }

  // From two to 32 pages, whose size fits the 32 bits it is computed in.
  predicate Usable(line: uint32, yres: uint32, yresVirtual: uint32) {
    && line > 0 && yres > 0 && line as int * yresVirtual as int < UINT32_COUNT
    && 2 <= yresVirtual as int / yres as int <= 32
  }

  // How a call ends: with its code, or in a shift or a difference that C leaves undefined.
  datatype Ended = Code(code: int32) | Undefined

  class Module {
    const wordBits: nat
    var mapping: Handle?
    var mapped: bool
    var mappingSize: int
    var lineLength: uint32
    var yres: uint32
    var yresVirtual: uint32
    var yoffset: int
    var numBuffers: uint32
    var bufferMask: nat
    var currentBuffer: Handle?

    // The live handles, by slot.
    ghost var live: map<nat, Handle>

    constructor (wordBits: nat)
      requires IsWord(wordBits)
      ensures Unset() && this.wordBits == wordBits
    {
      this.wordBits := wordBits;
      mapping, currentBuffer, mapped := null, null, false;
      mappingSize, lineLength, yres, yresVirtual, yoffset, numBuffers, bufferMask := 0, 0, 0, 0, 0, 0, 0;
      live := map[];
    }

    // Before the framebuffer is set.
    ghost predicate Unset()
      reads this
    {
      IsWord(wordBits) && mapping == null && numBuffers == 0 && bufferMask == 0 && live == map[]
    }

    function BufferSize(): nat
      reads `lineLength, `yres
    {
      Mul32(lineLength, yres)
    }

    // Where the framebuffer is mapped.
    function Address(): nat
      requires IsWord(wordBits) && mapping != null
      reads `mapping, mapping
    {
      Pointer(wordBits, mapping.base)
    }

    // The framebuffer is set to a usable geometry, and its pages lie in the address space. If
    // the mapping failed its address is 0.
    ghost predicate Ready()
      reads this, mapping
    {
      && IsWord(wordBits) && mapping != null && (mapped || mapping.base == 0)
      && Usable(lineLength, yres, yresVirtual)
      && numBuffers as int == yresVirtual as int / yres as int
      && mapping.base == Widened(wordBits, Address())
      && Address() + lineLength as int * yresVirtual as int <= Modulus(wordBits)
      && (mapped ==> lineLength as int * yresVirtual as int <= mappingSize && Address() + mappingSize <= Modulus(wordBits))
    }

    ghost predicate Valid()
      reads this, mapping, live.Values
    {
      && Ready()
      && Represents(bufferMask, live.Keys, numBuffers as nat)
      && forall i :: i in live ==> IsAt(i, live[i])
    }

    // The handle is the framebuffer handle of the slot. Its offset is kept in an 'int'.
    ghost predicate IsAt(slot: nat, h: Handle)
      requires IsWord(wordBits) && mapping != null
      reads `mapping, `lineLength, `yres, mapping, h
    {
      && h != mapping && h.isFramebuffer
      && h.base == Widened(wordBits, Address() + slot * BufferSize()) && h.offset == WrapInt32(slot * BufferSize())
    }

    // The slot starts in the upper half of the address space and the mapping in the lower.
    ghost predicate IsAcross(slot: nat)
      requires IsWord(wordBits) && mapping != null
      reads `mapping, `lineLength, `yres, mapping
    {
      Crosses(wordBits, Address(), slot * BufferSize())
    }

    // An allocation is undefined: the test shifts by a word's width or more, or the difference
    // of the slot's address and the mapping's does not fit a word.
    ghost predicate AllocUndefined()
      requires IsWord(wordBits) && mapping != null
      reads this, mapping
    {
      || numBuffers as nat >= wordBits
      || exists s: nat ::
           IsLeastFree(live.Keys, numBuffers as nat, Some(s)) && IsAcross(s) && s * BufferSize() < Modulus(wordBits) / 2
    }

    // Maps the framebuffer the driver describes, once. When the driver reports no memory, the
    // error returned is a leftover, which may be 0. A failed mapping leaves the framebuffer
    // set, so that the next call reports success.
    method MapFrameBufferLocked(driver: Driver) returns (r: int32)
      requires IsWord(wordBits) && Legal(wordBits, driver)
      modifies this
      ensures old(mapping) != null ==> r == 0 && unchanged(this)
      ensures old(mapping) == null && driver.Refuses? ==> r == -driver.errno && unchanged(this)
      ensures old(mapping) == null && driver.Reports? && driver.smemLen == 0 ==> r == -driver.leftover && unchanged(this)
      ensures old(mapping) == null && driver.Reports? && driver.smemLen > 0 ==>
        && r == (if driver.address.At? then 0 else -driver.address.errno)
        && mapping != null && fresh(mapping) && mapped == driver.address.At?
        && Address() == (if mapped then driver.address.address else 0)
        && lineLength == driver.line && yres == driver.height && yresVirtual == driver.virtualHeight
        && (Usable(driver.line, driver.height, driver.virtualHeight) && old(live) == map[] ==> Valid() && live == map[])
    {
      if mapping != null { return 0; }
      if driver.Refuses? { return -driver.errno; }
      if driver.smemLen <= 0 { return -driver.leftover; }
      hide Mul32, RoundUpToPageSize, Represents, Usable, Widened, Pointer, Signed;
      SetFramebuffer(driver);
      ZeroAddress(wordBits);
      if driver.address.At? { MappedFits(driver); }
      if Usable(driver.line, driver.height, driver.virtualHeight) { UsableFits(driver); }
      mapped := driver.address.At?;
      if !mapped { return -driver.address.errno; }
      mapping.base := Widened(wordBits, driver.address.address);
      return 0;
    }

    lemma UsableFits(driver: Driver)
      requires IsWord(wordBits) && driver.Reports? && Usable(driver.line, driver.height, driver.virtualHeight)
      ensures driver.line as int * driver.virtualHeight as int <= Modulus(wordBits)
      ensures live == map[] ==> Represents(0, live.Keys, (driver.virtualHeight / driver.height) as nat)
    {
      if live == map[] { assert live.Keys == {}; }
      EmptyMask((driver.virtualHeight / driver.height) as nat);
    }

    lemma MappedFits(driver: Driver)
      requires IsWord(wordBits) && Legal(wordBits, driver) && driver.Reports? && driver.address.At?
      ensures var a := driver.address.address;
        Pointer(wordBits, Widened(wordBits, a)) == a
      ensures Usable(driver.line, driver.height, driver.virtualHeight) ==>
        driver.line as int * driver.virtualHeight as int <= RoundUpToPageSize(wordBits, Mul32(driver.line, driver.virtualHeight))
    {
      hide RoundUpToPageSize, Mul32, Widened, Pointer;
      PointerAt(wordBits, driver.address.address);
      Mul32Exact(driver.line, driver.virtualHeight);
    }

    // Fills in the geometry, without the address.
    method SetFramebuffer(driver: Driver)
      requires IsWord(wordBits) && driver.Reports? && driver.height > 0
      modifies this
      ensures mapping != null && fresh(mapping) && mapping.base == 0 && Address() == 0 && mapped == old(mapped) && live == old(live)
      ensures lineLength == driver.line && yres == driver.height && yresVirtual == driver.virtualHeight
      ensures numBuffers == driver.virtualHeight / driver.height && bufferMask == 0
      ensures mappingSize == RoundUpToPageSize(wordBits, Mul32(driver.line, driver.virtualHeight))
    {
      lineLength, yres, yresVirtual, yoffset := driver.line, driver.height, driver.virtualHeight, 0;
      mappingSize := RoundUpToPageSize(wordBits, Mul32(lineLength, yresVirtual));
      mapping := new Handle(false);
      numBuffers := yresVirtual / yres;
      bufferMask := 0;
    }

    // One allocation, which first sets the framebuffer if there is none. A driver without memory
    // whose leftover error is 0 lets it go on, and it is refused for want of buffers.
    method AllocFramebufferLocked(driver: Driver) returns (r: Ended, handle: Handle?)
      requires (Unset() || Valid()) && Legal(wordBits, driver)
      requires Unset() && driver.Reports? && driver.smemLen > 0 ==> Usable(driver.line, driver.height, driver.virtualHeight)
      modifies this
      ensures handle != null ==> r == Code(0) && fresh(handle)
      ensures old(Unset()) && (driver.Refuses? || driver.smemLen == 0) ==>
        Unset() && r == Code(if driver.Refuses? then -driver.errno else if driver.leftover > 0 then -driver.leftover else -ENOMEM)
      ensures old(Unset()) && driver.Reports? && driver.smemLen > 0 && driver.address.NotMapped? ==>
        Valid() && !mapped && live == map[] && r == Code(-driver.address.errno)
      ensures old(Unset()) && driver.Reports? && driver.smemLen > 0 && driver.address.At? ==>
        && mapped && mapping != null && Address() == driver.address.address
        && (if numBuffers as nat >= wordBits then r == Undefined
            else Valid() && r == Code(0) && handle != null && live == map[0 := handle])
      ensures old(mapping) != null ==> unchanged(`mapping) && unchanged(`numBuffers) && BufferSize() == old(BufferSize())
      ensures old(mapping) != null ==> AllocEnds(old(AllocUndefined()), old(live), r, handle)
    {
      hide Usable, Represents, RoundUpToPageSize, Mul32, WrapInt32, Pow2, Widened, Pointer, Signed;
      handle := null;
      if mapping == null {
        var err := MapFrameBufferLocked(driver);
        if err < 0 { return Code(err), handle; }
      }
      ghost var before := live;
      if mapping != null && live == map[] { FirstIsDefined(); }
      r, handle := AllocFreeSlot();
      if before == map[] && r == Code(0) { FirstTaken(before, handle); }
    }

    // How an allocation ends once the framebuffer is set: undefined, refused exactly when all
    // slots are live, or with the least slot that was not.
    ghost predicate AllocEnds(undefined: bool, before: map<nat, Handle>, r: Ended, handle: Handle?)
      reads this, mapping, live.Values
    {
      if undefined then r == Undefined
      else
        var full := forall i: nat :: i < numBuffers as nat ==> i in before;
        && Valid() && r == Code(if full then -ENOMEM else 0) && (handle == null <==> full)
        && if full then live == before else TakesLeast(before, handle)
    }

    // The handle was given the least slot that was not live.
    ghost predicate TakesLeast(before: map<nat, Handle>, handle: Handle)
      reads this
    {
      exists s: nat :: IsLeastFree(before.Keys, numBuffers as nat, Some(s)) && live == before[s := handle]
    }

    // Once the framebuffer has been seen to.
    method AllocFreeSlot() returns (r: Ended, handle: Handle?)
      requires Unset() || Valid()
      modifies this`bufferMask, this`live
      ensures handle != null ==> r == Code(0) && fresh(handle)
      ensures old(Unset()) ==> Unset() && r == Code(-ENOMEM)
      ensures old(Valid()) ==> AllocEnds(old(AllocUndefined()), old(live), r, handle)
    {
      hide Usable, Represents, RoundUpToPageSize, Mul32, WrapInt32, Widened, Pointer, Signed;
      handle := null;
      if numBuffers as nat >= wordBits { return Undefined, handle; }
      NoBuffers();
      if mapping != null { FullIsAllLive(); }
      hide Pow2;
      if bufferMask >= Pow2(numBuffers as nat) - 1 { return Code(-ENOMEM), handle; }
      var overflow: bool;
      overflow, handle := TakeSlot();
      if overflow { return Undefined, null; }
      r := Code(0);
    }

    lemma FirstTaken(before: map<nat, Handle>, handle: Handle)
      requires before == map[] && TakesLeast(before, handle)
      ensures live == map[0 := handle]
    {
      var s: nat :| IsLeastFree(before.Keys, numBuffers as nat, Some(s)) && live == before[s := handle];
      assert 0 !in before.Keys;
    }

    // The first allocation starts where the mapping does.
    lemma FirstIsDefined()
      requires Valid() && live == map[]
      ensures AllocUndefined() <==> numBuffers as nat >= wordBits
      ensures !forall i: nat :: i < numBuffers as nat ==> i in live
    {
      assert numBuffers > 0 && 0 !in live;
      forall s: nat | IsLeastFree(live.Keys, numBuffers as nat, Some(s)) ensures !IsAcross(s) {
        assert 0 !in live.Keys;
        assert s == 0;
      }
    }

    lemma FullIsAllLive()
      requires Valid()
      ensures numBuffers >= 2
      ensures bufferMask >= Pow2(numBuffers as nat) - 1 <==> forall i: nat :: i < numBuffers as nat ==> i in live
      ensures bufferMask >= Pow2(numBuffers as nat) - 1 ==> forall s: nat :: !IsLeastFree(live.Keys, numBuffers as nat, Some(s))
    {
      hide Pow2, Mul32, Represents;
      FullMask(bufferMask, live.Keys, numBuffers as nat);
    }

    // The first clear bit is the least slot that is not live, and setting it takes the slot.
    lemma TakenSlot(slot: nat)
      requires Valid() && bufferMask < Pow2(numBuffers as nat) - 1
      requires slot == FirstClear(bufferMask, 0, numBuffers as nat)
      ensures IsLeastFree(live.Keys, numBuffers as nat, Some(slot)) && slot < numBuffers as nat && slot !in live
      ensures Represents(Taken(bufferMask, slot), live.Keys + {slot}, numBuffers as nat)
    {
      AllocIsLeastFree(bufferMask, live.Keys, numBuffers as nat);
      hide Represents, Taken, FirstClear, Pow2, Mul32;
      TakenRepresents(bufferMask, live.Keys, numBuffers as nat, slot);
    }

    // The least free slot is the only one.
    lemma OverflowIsUndefined(slot: nat)
      requires IsWord(wordBits) && mapping != null && IsLeastFree(live.Keys, numBuffers as nat, Some(slot))
      requires (numBuffers as nat) < wordBits
      ensures AllocUndefined() <==> IsAcross(slot) && slot * BufferSize() < Modulus(wordBits) / 2
    {
      hide Mul32, IsAcross;
      forall s: nat | IsLeastFree(live.Keys, numBuffers as nat, Some(s)) ensures s == slot {}
    }

    // Hands out the least slot that is not live.
    method TakeSlot() returns (overflow: bool, handle: Handle)
      requires Valid() && (numBuffers as nat) < wordBits && bufferMask < Pow2(numBuffers as nat) - 1
      modifies this`bufferMask, this`live
      ensures Valid() && fresh(handle) && TakesLeast(old(live), handle)
      ensures overflow <==> old(AllocUndefined())
    {
      var slot, vaddr := FindFreeSlot();
      TakenSlot(slot);
      OverflowIsUndefined(slot);
      hide Represents, Taken, FirstClear, Pow2, Mul32, WrapInt32, Usable, RoundUpToPageSize, IsLeastFree,
        Widened, Pointer, Signed, Crosses, FitsWord, IsAcross, AllocUndefined, IsAt, Ready;
      overflow, handle := HandleAt(slot, vaddr);
      MarkTaken(slot, handle);
    }

    // Sets the slot's bit.
    method MarkTaken(slot: nat, handle: Handle)
      requires Valid() && slot !in live && IsAt(slot, handle)
      requires IsLeastFree(live.Keys, numBuffers as nat, Some(slot))
      requires Represents(Taken(bufferMask, slot), live.Keys + {slot}, numBuffers as nat)
      modifies this`bufferMask, this`live
      ensures Valid() && TakesLeast(old(live), handle)
    {
      hide Represents, Taken, FirstClear, Pow2, Mul32, WrapInt32, Usable, IsLeastFree, Widened, Pointer, Signed, IsAt;
      bufferMask := Taken(bufferMask, slot);
      live := live[slot := handle];
      assert live.Keys == old(live).Keys + {slot};
    }

    method HandleAt(ghost slot: nat, vaddr: int) returns (overflow: bool, handle: Handle)
      requires Ready() && slot < numBuffers as nat && vaddr == Signed(wordBits, Address() + slot * BufferSize())
      ensures fresh(handle) && IsAt(slot, handle)
      ensures overflow <==> IsAcross(slot) && slot * BufferSize() < Modulus(wordBits) / 2
    {
      SlotOffset(slot);
      hide WrapInt32, Widened, Pointer, Signed, Usable, Mul32, RoundUpToPageSize, FitsWord, Crosses, IsAcross, BufferSize;
      var offset := vaddr - Signed(wordBits, mapping.base);
      overflow := !FitsWord(wordBits, offset);
      handle := new Handle(true);
      handle.base, handle.offset := vaddr % UINT64_COUNT, WrapInt32(offset);
    }

    // What the difference of the addresses is.
    lemma SlotOffset(slot: nat)
      requires Ready() && slot < numBuffers as nat
      ensures var d := slot * BufferSize();
        var vaddr := Signed(wordBits, Address() + d);
        var offset := vaddr - Signed(wordBits, mapping.base);
        && vaddr % UINT64_COUNT == Widened(wordBits, Address() + d)
        && (FitsWord(wordBits, offset) <==> !IsAcross(slot) || d >= Modulus(wordBits) / 2)
        && WrapInt32(offset) == WrapInt32(d)
    {
      SlotFits(slot);
      var d := slot * BufferSize();
      PointerOfWidened(wordBits, Address());
      SignedDifference(wordBits, Address(), d);
      hide Signed, Widened, Pointer, Usable, Mul32;
      var m := Modulus(wordBits);
      if IsAcross(slot) { SameRemainder(d - m, d, UINT32_COUNT, -(m / UINT32_COUNT)); }
    }

    // A slot's page lies in the buffers, and they in the address space.
    lemma SlotFits(slot: nat)
      requires Ready() && slot < numBuffers as nat
      ensures BufferSize() == lineLength as int * yres as int > 0
      ensures 0 <= slot * BufferSize()
      ensures slot * BufferSize() + BufferSize() <= lineLength as int * yresVirtual as int < UINT32_COUNT
      ensures Address() + slot * BufferSize() + BufferSize() <= Modulus(wordBits)
      ensures slot * yres as int + yres as int <= yresVirtual as int
    {
      SlotIsInside(slot, numBuffers as nat, lineLength as nat, yres as nat, yresVirtual as nat);
      SlotIsInside(0, numBuffers as nat, lineLength as nat, yres as nat, yresVirtual as nat);
      Mul32Exact(lineLength, yres);
      hide Pointer, Mul32, Widened;
      NatProduct(slot, BufferSize());
      assert (slot + 1) * BufferSize() == slot * BufferSize() + BufferSize();
    }

    // The search, which moves an address along with the slot. The address wraps.
    method FindFreeSlot() returns (slot: nat, vaddr: int)
      requires Ready() && (numBuffers as nat) < wordBits && bufferMask < Pow2(numBuffers as nat) - 1
      ensures slot == FirstClear(bufferMask, 0, numBuffers as nat)
      ensures vaddr == Signed(wordBits, Address() + slot * BufferSize())
    {
      FirstAddress();
      hide Mul32, Pow2, Signed, Pointer, Widened, Usable;
      slot, vaddr := 0, Signed(wordBits, mapping.base);
      while slot < numBuffers as nat && Bit(bufferMask, slot)
        invariant slot <= numBuffers as nat
        invariant FirstClear(bufferMask, 0, numBuffers as nat) == FirstClear(bufferMask, slot, numBuffers as nat)
        invariant vaddr == Signed(wordBits, Address() + slot * BufferSize())
      {
        NextAddress(slot);
        slot := slot + 1;
        vaddr := Signed(wordBits, vaddr + BufferSize());
      }
    }

    lemma FirstAddress()
      requires Ready()
      ensures Signed(wordBits, mapping.base) == Signed(wordBits, Address() + 0 * BufferSize())
    {
      PointerOfWidened(wordBits, Address());
      hide Signed, Pointer, Widened, Usable, Mul32;
    }

    lemma NextAddress(slot: nat)
      requires IsWord(wordBits) && mapping != null
      ensures Signed(wordBits, Signed(wordBits, Address() + slot * BufferSize()) + BufferSize())
        == Signed(wordBits, Address() + (slot + 1) * BufferSize())
    {
      hide Signed, Pointer, Mul32;
      SignedAdds(wordBits, Address() + slot * BufferSize(), BufferSize());
      assert (slot + 1) * BufferSize() == slot * BufferSize() + BufferSize();
    }

    // The difference of two addresses, in 64 bits.
    function Distance(handle: Handle): nat
      requires mapping != null
      reads `mapping, mapping, handle
    {
      (handle.base - mapping.base) % UINT64_COUNT
    }

    // Recovers the slot from the handle's address and clears its bit, if the address does not
    // cross into the upper half or a word has 64 bits.
    method Free(handle: Handle, ghost slot: nat) returns (r: Ended)
      requires Valid() && slot in live && live[slot] == handle
      modifies this`bufferMask, this`live
      ensures wordBits == 64 || !old(IsAcross(slot)) ==> r == Code(0) && Valid() && live == old(live) - {slot}
    {
      SlotFromAddress(slot);
      ReleasedRepresents(bufferMask, live.Keys, numBuffers as nat, slot);
      hide Represents, Released, Mul32, WrapInt32, Widened, Pointer, Signed, RoundUpToPageSize;
      var index := WrapInt32(Distance(handle) / BufferSize());
      if index < 0 || index >= 32 { return Undefined; }
      bufferMask := Released(bufferMask, index as nat);
      live := live - {slot};
      assert live.Keys == old(live).Keys - {slot};
      r := Code(0);
    }

    // What dividing the difference of the addresses gives.
    lemma SlotFromAddress(slot: nat)
      requires Valid() && slot in live
      ensures slot < numBuffers as nat <= 32 && BufferSize() > 0 && lineLength > 0
      ensures wordBits == 64 || !IsAcross(slot) ==> WrapInt32(Distance(live[slot]) / BufferSize()) as int == slot
      ensures wordBits == 32 && IsAcross(slot) ==>
        Distance(live[slot]) == slot * BufferSize() + UINT64_COUNT - UINT32_COUNT
      ensures Distance(live[slot]) % Modulus(wordBits) / lineLength as int == slot * yres as int
      ensures slot * yres as int + yres as int <= yresVirtual as int
    {
      SlotIsFew(slot);
      SlotFits(slot);
      DistanceIs(slot);
      SlotArithmetic(slot, lineLength as nat, yres as nat);
      WrapKeepsWhatFits(slot);
      hide Represents, Mul32, Widened, Pointer, Signed, WrapInt32, Usable, Crosses, Distance, Valid, IsAcross;
    }

    lemma SlotIsFew(slot: nat)
      requires Valid() && slot in live
      ensures IsAt(slot, live[slot]) && slot < numBuffers as nat <= 32 && lineLength > 0 && Ready()
    {
    }

    lemma SlotIsAt(slot: nat)
      requires Valid() && slot in live
      ensures slot < numBuffers as nat && IsWord(wordBits) && mapping != null && mapping.base == Widened(wordBits, Address())
      ensures live[slot].base == Widened(wordBits, Address() + slot * BufferSize())
      ensures 0 <= slot * BufferSize() && Address() + slot * BufferSize() < Modulus(wordBits)
    {
      SlotIsFew(slot);
      SlotFits(slot);
      hide Represents, Mul32, Widened, Pointer, Usable, Valid, BufferSize;
    }

    lemma DistanceIs(slot: nat)
      requires Valid() && slot in live
      ensures var d := slot * BufferSize();
        && (wordBits == 64 || !IsAcross(slot) ==> Distance(live[slot]) == d)
        && (wordBits == 32 && IsAcross(slot) ==> Distance(live[slot]) == d + UINT64_COUNT - UINT32_COUNT)
        && Distance(live[slot]) % Modulus(wordBits) == d
    {
      SlotIsAt(slot);
      hide Represents, Mul32, Widened, Pointer, Signed, Usable, Crosses, Valid, Ready, Address, BufferSize, IsAt, Modulus;
      WidenedDifference(wordBits, Address(), slot * BufferSize());
    }

    // Pans to the handle's slot. The distance is cut to a word, which makes it right in every
    // case. The offset asked for stays when the driver refuses to.
    method Post(handle: Handle, ghost slot: nat, panError: Option<int32>) returns (r: int32)
      requires Valid() && slot in live && live[slot] == handle && (panError.Some? ==> panError.value > 0)
      modifies this`yoffset, this`currentBuffer
      ensures Valid()
      ensures r == if panError.Some? then -panError.value else 0
      ensures currentBuffer == if panError.Some? then old(currentBuffer) else handle
      ensures yoffset == slot * yres as int && yoffset + yres as int <= yresVirtual as int
    {
      SlotFromAddress(slot);
      hide Represents, Usable, Mul32, WrapInt32, Widened, Pointer, Signed;
      yoffset := Distance(handle) % Modulus(wordBits) / lineLength as int;
      if panError.Some? { return -panError.value; }
      currentBuffer := handle;
      return 0;
    }

    // The offset kept in a handle is its slot's exactly when the slot starts below 2 GiB.
    lemma OffsetIsKept(slot: nat)
      requires Valid() && slot in live
      ensures live[slot].offset as int == slot * BufferSize() <==> slot * BufferSize() <= INT32_MAX
    {
      SlotIsFew(slot);
      SlotIsAt(slot);
      assert live[slot].offset == WrapInt32(slot * BufferSize());
      hide Valid, Ready, IsAt, Address, BufferSize, WrapInt32, Widened, Modulus;
      WrapKeepsWhatFits(slot * BufferSize());
    }

    // The ranges that two live handles point to do not meet, and lie in the buffers, whether
    // or not an address crosses into the upper half.
    lemma RangesAreDisjoint(i: nat, j: nat)
      requires Valid() && i in live && j in live && i < j
      ensures var p, q := Pointer(wordBits, live[i].base), Pointer(wordBits, live[j].base);
        && Address() <= p && p + BufferSize() <= q
        && q + BufferSize() <= Address() + lineLength as int * yresVirtual as int
      ensures mapped ==> Address() + lineLength as int * yresVirtual as int <= Address() + mappingSize <= Modulus(wordBits)
      ensures live[i] != live[j]
    {
      PointsTo(i);
      PointsTo(j);
      SlotFits(j);
      hide Mul32, RoundUpToPageSize, Represents, Pointer, Widened, Usable;
      SlotsApart(i, j, BufferSize());
    }

    lemma PointsTo(slot: nat)
      requires Valid() && slot in live
      ensures slot < numBuffers as nat && Pointer(wordBits, live[slot].base) == Address() + slot * BufferSize()
    {
      SlotIsAt(slot);
      hide *;
      PointerAt(wordBits, Address() + slot * BufferSize());
    }
  }

  lemma NatProduct(a: nat, b: nat)
    ensures a * b >= 0
  {
  }

  lemma SlotsApart(i: nat, j: nat, size: nat)
    requires i < j
    ensures 0 <= i * size && i * size + size <= j * size
  {
    assert (i + 1) * size <= j * size;
  }

  lemma SlotArithmetic(slot: nat, line: nat, yres: nat)
    requires line > 0 && yres > 0
    ensures slot * (line * yres) / (line * yres) == slot
    ensures slot * (line * yres) / line == slot * yres
  {
    assert line * yres > 0;
    assert slot * (line * yres) == line * (slot * yres);
    DivisionIsUnique(slot * (line * yres), line * yres, slot, 0);
    DivisionIsUnique(slot * (line * yres), line, slot * yres, 0);
  }

  lemma Mul32Exact(a: uint32, b: uint32)
    ensures a as int * b as int < UINT32_COUNT ==> Mul32(a, b) == a as int * b as int
  {
  }

  lemma NoBuffers()
    ensures Pow2(0) - 1 == 0
  {
  }

  lemma ZeroAddress(w: nat)
    requires IsWord(w)
    ensures Widened(w, 0) == 0 && Pointer(w, 0) == 0
  {
  }

  // Three pages of 0x10000 by 0x5000 bytes: the last starts beyond 2 GiB, and its offset is lost.
  lemma OffsetCanBeLost()
    ensures Usable(0x1_0000, 0x5000, 0xF000)
    ensures WrapInt32(2 * Mul32(0x1_0000, 0x5000)) as int < 0 < 2 * Mul32(0x1_0000, 0x5000)
  {
  }

  // The index that releasing a slot computes from its address.
  function Index(w: nat, address: nat, slot: nat, size: nat): int32
    requires IsWord(w) && size > 0
  {
    WrapInt32((Widened(w, address + slot * size) - Widened(w, address)) % UINT64_COUNT / size)
  }

  // ... which for a slot across in a 32-bit word is this.
  lemma IndexAcross(address: nat, slot: nat, size: nat, q: int, k: int)
    requires size > 0 && address + slot * size < UINT32_COUNT && Crosses(32, address, slot * size)
    requires 0 <= slot * size + UINT64_COUNT - UINT32_COUNT - size * q < size && 0 <= q - UINT32_COUNT * k < UINT32_COUNT
    ensures Index(32, address, slot, size) as int ==
      if q - UINT32_COUNT * k > INT32_MAX then q - UINT32_COUNT * k - UINT32_COUNT else q - UINT32_COUNT * k
  {
    hide Widened, Signed, Crosses;
    WidenedDifference(32, address, slot * size);
    var distance := slot * size + UINT64_COUNT - UINT32_COUNT;
    DivisionIsUnique(distance, size, q, distance - size * q);
    DivisionIsUnique(q, UINT32_COUNT, k, q - UINT32_COUNT * k);
  }

  // Recovery fails there: with the buffers at 0x08000000, for the third slot, which starts in
  // the upper half and is handed out without overflow ...
  lemma SlotCanBeLost()
    ensures var size := Mul32(0x1_0000, 0x5000);
      && Usable(0x1_0000, 0x5000, 0xF000) && 0x0800_0000 + 0x1_0000 * 0xF000 < UINT32_COUNT
      && Crosses(32, 0x0800_0000, 2 * size) && 2 * size >= Modulus(32) / 2
      && Index(32, 0x0800_0000, 2, size) == 858993458
  {
    hide Index;
    IndexAcross(0x0800_0000, 2, Mul32(0x1_0000, 0x5000), 13743895346, 3);
  }

  // ... and with pages of 7680 by 1080 bytes at 0x7ff00000, for the second, whose allocation
  // has overflowed already.
  lemma SlotCanBeLostAfterOverflow()
    ensures var size := Mul32(7680, 1080);
      && Usable(7680, 1080, 2160) && Crosses(32, 0x7ff0_0000, size) && size < Modulus(32) / 2
      && Index(32, 0x7ff0_0000, 1, size) == -793243860
  {
    hide Index;
    IndexAcross(0x7ff0_0000, 1, Mul32(7680, 1080), 2223999815468, 517);
  }

  // A slot's range ends inside the buffers, and they inside the mapping.
  lemma SlotIsInside(slot: nat, n: nat, line: nat, yres: nat, yresVirtual: nat)
    requires yres > 0 && slot < n == yresVirtual / yres
    ensures (slot + 1) * (line * yres) <= line * yresVirtual
    ensures slot * yres + yres <= yresVirtual
  {
    assert (slot + 1) * yres <= n * yres <= yresVirtual;
    assert line * ((slot + 1) * yres) == (slot + 1) * (line * yres);
  }
}
