/** The hash table's size: the next power of two, found by smearing the top bit downwards. */
module PowerOfTwo {
  import opened CInt
  import opened Bits

  // Every bit of x says whether v has a bit among the w bits from there up.
  ghost predicate Smeared(x: nat, v: nat, w: nat) {
    forall i: nat :: Bit(x, i) <==> Among(v, i, w)
  }

  ghost predicate Among(v: nat, i: nat, w: nat) {
    exists j: nat :: i <= j < i + w && Bit(v, j)
  }

  lemma SmearOnce(v: nat)
    ensures Smeared(v, v, 1)
  {
    forall i: nat ensures Bit(v, i) <==> Among(v, i, 1) {
      if Bit(v, i) { assert i <= i < i + 1 && Bit(v, i); }
    }
  }

  // val |= val >> w doubles the window.
  lemma SmearDoubles(x: nat, v: nat, w: nat)
    requires Smeared(x, v, w)
    ensures Smeared(Or(x, ShiftRight(x, w)), v, 2 * w)
  {
    forall i: nat ensures Bit(Or(x, ShiftRight(x, w)), i) <==> Among(v, i, 2 * w) {
      OrBit(x, ShiftRight(x, w), i);
      ShiftBit(x, w, i);
      assert Bit(x, i) <==> Among(v, i, w);
      assert Bit(x, i + w) <==> Among(v, i + w, w);
      if Among(v, i, 2 * w) {
        var j: nat :| i <= j < i + 2 * w && Bit(v, j);
        assert Among(v, i, w) || Among(v, i + w, w);
      }
    }
  }

  // A 32-bit number smeared over 32 bits is all ones below its top bit.
  lemma SmearedFully(x: nat, v: nat)
    requires v < UINT32_COUNT && Smeared(x, v, 32)
    ensures v == 0 ==> x == 0
    ensures v > 0 ==> exists t: nat :: t < 32 && Pow2(t) <= v < Pow2(t + 1) && x == Pow2(t + 1) - 1
  {
    WordSizes();
    if v == 0 {
      forall i: nat ensures Bit(x, i) == Bit(0, i) {
        ZeroBit(i);
        if Among(v, i, 32) {
          var j: nat :| i <= j < i + 32 && Bit(v, j);
          ZeroBit(j);
        }
      }
      SameBits(x, 0);
    } else {
      var t := TopBit(v);
      if t >= 32 { NoHighBits(v, 32, t); }
      forall i: nat ensures Bit(x, i) == Bit(Pow2(t + 1) - 1, i) {
        MaskBit(t + 1, i);
        if i <= t {
          assert i <= t < i + 32 && Bit(v, t);
        } else if Among(v, i, 32) {
          var j: nat :| i <= j < i + 32 && Bit(v, j);
          NoHighBits(v, t + 1, j);
        }
      }
      SameBits(x, Pow2(t + 1) - 1);
    }
  }

  ghost predicate IsPowerOf2(x: nat) {
    exists k: nat :: x == Pow2(k)
  }

  lemma PowerIsPower(k: nat)
    ensures IsPowerOf2(Pow2(k))
  {
  }

  lemma NextPowerIsLeast(t: nat, val: nat, p: nat)
    requires Pow2(t) < val && IsPowerOf2(p) && p >= val
    ensures p >= Pow2(t + 1)
  {
    var k: nat :| p == Pow2(k);
    if k < t { Pow2Grows(k, t); }
    if k > t + 1 { Pow2Grows(t + 1, k); }
  }

  // One more than the smeared number is a power of two, and the one before it is too small.
  lemma SmearedPower(inVal: nat, x: nat) returns (t: nat)
    requires 1 < inVal < UINT32_COUNT && Smeared(x, inVal - 1, 32)
    ensures t < 32 && x + 1 == Pow2(t + 1) && Pow2(t) < inVal <= Pow2(t + 1)
  {
    SmearedFully(x, inVal - 1);
    t :| t < 32 && Pow2(t) <= inVal - 1 < Pow2(t + 1) && x == Pow2(t + 1) - 1;
  }

  lemma TopIsBelow(t: nat, inVal: nat, k: nat)
    requires Pow2(t) < inVal <= Pow2(t + 1)
    ensures t < k <==> inVal <= Pow2(k)
    ensures t < k ==> Pow2(t + 1) <= Pow2(k)
  {
    if t + 1 < k { Pow2Grows(t + 1, k); }
    if k < t { Pow2Grows(k, t); }
  }

  lemma RoundedUp(inVal: nat, x: nat)
    requires 1 < inVal < UINT32_COUNT && Smeared(x, inVal - 1, 32)
    ensures inVal <= Pow2(31) ==> x + 1 <= Pow2(31) && IsPowerOf2(x + 1) && x + 1 >= inVal
    ensures inVal <= Pow2(31) ==> forall p: nat :: IsPowerOf2(p) && p >= inVal ==> p >= x + 1
    ensures inVal > Pow2(31) ==> x + 1 == Pow2(32)
  {
    var t := SmearedPower(inVal, x);
    hide Pow2, Smeared, IsPowerOf2;
    TopIsBelow(t, inVal, 31);
    PowerIsPower(t + 1);
    if t >= 31 { assert t == 31; }
    forall p: nat | IsPowerOf2(p) && p >= inVal ensures p >= x + 1 { NextPowerIsLeast(t, inVal, p); }
  }

  // The least power of two not below the argument, or 0 when that does not fit in 32 bits,
  // and for 0.
  method RoundUpPower2(inVal: uint32) returns (r: uint32)
    ensures 1 <= inVal as nat <= Pow2(31) ==> IsPowerOf2(r as nat) && r >= inVal
    ensures 1 <= inVal as nat <= Pow2(31) ==> forall p: nat :: IsPowerOf2(p) && p >= inVal as nat ==> p >= r as nat
    ensures inVal == 0 || inVal as nat > Pow2(31) ==> r == 0
  {
    WordSizes();
    hide Or, Pow2, Bit, ShiftRight;
    var val: nat := (inVal as int - 1) % UINT32_COUNT;
    ghost var v := val;
    SmearOnce(val);
    SmearDoubles(val, v, 1);
    val := Or(val, ShiftRight(val, 1));
    SmearDoubles(val, v, 2);
    val := Or(val, ShiftRight(val, 2));
    SmearDoubles(val, v, 4);
    val := Or(val, ShiftRight(val, 4));
    SmearDoubles(val, v, 8);
    val := Or(val, ShiftRight(val, 8));
    SmearDoubles(val, v, 16);
    val := Or(val, ShiftRight(val, 16));
    if inVal > 1 { RoundedUp(inVal as nat, val); } else { SmearedEnds(val, v); }
    r := ((val + 1) % UINT32_COUNT) as uint32;
  }

  // The two ends of the range: 0 - 1 wraps to all ones, and 1 - 1 is 0.
  lemma SmearedEnds(x: nat, v: nat)
    requires Smeared(x, v, 32) && (v == 0 || v == UINT32_COUNT - 1)
    ensures x == v && IsPowerOf2(1)
  {
    SmearedFully(x, v);
    WordSizes();
    assert Pow2(0) == 1;
    if v > 0 {
      var t: nat :| t < 32 && Pow2(t) <= v < Pow2(t + 1) && x == Pow2(t + 1) - 1;
      if t < 31 { Pow2Grows(t, 31); }
    }
  }
}
