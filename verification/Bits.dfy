// Natural numbers as bit strings: '&', '|', shifts and masks, and what they do to each bit.
module Bits {
  import opened CInt

  function Pow2(k: nat): (p: nat)
    ensures p > 0
  {
    if k == 0 then 1 else 2 * Pow2(k - 1)
  }

  // Bit i of x, counted from the low end.
  predicate Bit(x: nat, i: nat) {
    if i == 0 then x % 2 == 1 else Bit(x / 2, i - 1)
  }

  function And(x: nat, y: nat): nat
    decreases x
  {
    if x == 0 then 0
    else 2 * And(x / 2, y / 2) + if x % 2 == 1 && y % 2 == 1 then 1 else 0
  }

  function Or(x: nat, y: nat): nat
    decreases x + y
  {
    if x == 0 then y else if y == 0 then x
    else 2 * Or(x / 2, y / 2) + if x % 2 == 1 || y % 2 == 1 then 1 else 0
  }

  // x & ~y
  function Clear(x: nat, y: nat): nat
    decreases x
  {
    if x == 0 then 0
    else 2 * Clear(x / 2, y / 2) + if x % 2 == 1 && y % 2 == 0 then 1 else 0
  }

  function ShiftRight(x: nat, s: nat): nat {
    if s == 0 then x else ShiftRight(x / 2, s - 1)
  }

  // Bit i is the last digit after dividing by 2^i.
  lemma {:induction false} BitIsDigit(x: nat, i: nat)
    ensures Bit(x, i) <==> x / Pow2(i) % 2 == 1
    decreases i
  {
    if i > 0 {
      BitIsDigit(x / 2, i - 1);
      HalfFirst(x, i);
    }
  }

  lemma {:induction false} ZeroBit(i: nat)
    ensures !Bit(0, i)
  {
    if i > 0 { ZeroBit(i - 1); }
  }

  lemma {:induction false} OrBit(x: nat, y: nat, i: nat)
    ensures Bit(Or(x, y), i) == (Bit(x, i) || Bit(y, i))
    decreases i
  {
    if x == 0 || y == 0 { ZeroBit(i); }
    else if i > 0 { OrBit(x / 2, y / 2, i - 1); }
  }

  lemma {:induction false} ClearBit(x: nat, y: nat, i: nat)
    ensures Bit(Clear(x, y), i) == (Bit(x, i) && !Bit(y, i))
    decreases i
  {
    if x == 0 { ZeroBit(i); }
    else if i > 0 { ClearBit(x / 2, y / 2, i - 1); }
  }

  // Dividing by 2^s is halving first and then dividing by 2^(s-1).
  lemma HalfFirst(x: nat, s: nat)
    requires s > 0
    ensures x / Pow2(s) == x / 2 / Pow2(s - 1)
    ensures x % Pow2(s) == 2 * (x / 2 % Pow2(s - 1)) + x % 2
  {
    var p := Pow2(s - 1);
    var q, r := x / 2 / p, x / 2 % p;
    assert p * q + r == x / 2;
    assert x == Pow2(s) * q + (2 * r + x % 2);
    DivisionIsUnique(x, Pow2(s), q, 2 * r + x % 2);
  }

  lemma {:induction false} ShiftBit(x: nat, s: nat, i: nat)
    ensures Bit(ShiftRight(x, s), i) == Bit(x, i + s)
    decreases s
  {
    if s > 0 { ShiftBit(x / 2, s - 1, i); }
  }

  // A number is its bits.
  lemma {:induction false} SameBits(x: nat, y: nat)
    requires forall i: nat :: Bit(x, i) == Bit(y, i)
    ensures x == y
    decreases x + y
  {
    if x + y > 0 {
      assert Bit(x, 0) == Bit(y, 0);
      forall i: nat ensures Bit(x / 2, i) == Bit(y / 2, i) {
        assert Bit(x, i + 1) == Bit(y, i + 1);
      }
      SameBits(x / 2, y / 2);
    }
  }

  lemma {:induction false} Pow2Bit(k: nat, i: nat)
    ensures Bit(Pow2(k), i) == (i == k)
    decreases k
  {
    if k == 0 {
      if i > 0 { ZeroBit(i - 1); }
    } else if i > 0 { Pow2Bit(k - 1, i - 1); }
  }

  lemma {:induction false} MaskBit(k: nat, i: nat)
    ensures Bit(Pow2(k) - 1, i) == (i < k)
    decreases k
  {
    if k == 0 { ZeroBit(i); }
    else if i > 0 {
      assert (Pow2(k) - 1) / 2 == Pow2(k - 1) - 1;
      MaskBit(k - 1, i - 1);
    }
  }

  // Masking with 2^k - 1 is reducing modulo 2^k.
  lemma {:induction false} AndMask(x: nat, k: nat)
    ensures And(x, Pow2(k) - 1) == x % Pow2(k)
    decreases k
  {
    if k == 0 { AndZero(x); }
    else {
      assert (Pow2(k) - 1) / 2 == Pow2(k - 1) - 1 && (Pow2(k) - 1) % 2 == 1;
      AndMask(x / 2, k - 1);
      HalfFirst(x, k);
    }
  }

  lemma {:induction false} AndZero(x: nat)
    ensures And(x, 0) == 0
  {
    if x > 0 { AndZero(x / 2); }
  }

  // A number below 2^k has no bit from k on.
  lemma {:induction false} NoHighBits(x: nat, k: nat, i: nat)
    requires x < Pow2(k) && i >= k
    ensures !Bit(x, i)
    decreases k
  {
    if k == 0 { ZeroBit(i); }
    else { NoHighBits(x / 2, k - 1, i - 1); }
  }

  // ... and a number with no bit from k on is below 2^k.
  lemma BelowPow2(x: nat, k: nat)
    requires forall i: nat :: i >= k ==> !Bit(x, i)
    ensures x < Pow2(k)
  {
    if x > 0 {
      var t := TopBit(x);
      assert t < k;
      if t + 1 < k { Pow2Grows(t + 1, k); }
    }
  }

  // The highest bit of a positive number.
  lemma {:induction false} TopBit(x: nat) returns (t: nat)
    requires x > 0
    ensures Pow2(t) <= x < Pow2(t + 1) && Bit(x, t)
  {
    if x == 1 { t := 0; }
    else {
      t := TopBit(x / 2);
      t := t + 1;
    }
  }

  lemma {:induction false} Pow2Grows(j: nat, k: nat)
    requires j < k
    ensures 2 * Pow2(j) <= Pow2(k)
    decreases k
  {
    if j < k - 1 { Pow2Grows(j, k - 1); }
  }

  lemma {:induction false} Pow2Adds(j: nat, k: nat)
    ensures Pow2(j + k) == Pow2(j) * Pow2(k)
    decreases k
  {
    if k > 0 {
      Pow2Adds(j, k - 1);
      assert Pow2(j + k) == 2 * Pow2(j + k - 1) && Pow2(k) == 2 * Pow2(k - 1);
      hide Pow2;
      TwiceInside(Pow2(j), Pow2(k - 1));
    }
  }

  lemma TwiceInside(x: nat, y: nat)
    ensures x * (2 * y) == 2 * (x * y)
  {
  }

  lemma WordSizes()
    ensures Pow2(5) == 32 && Pow2(8) == 0x100 && Pow2(16) == 0x1_0000
    ensures Pow2(31) == 0x8000_0000 && Pow2(32) == 0x1_0000_0000
  {
    assert Pow2(2) == 4;
    assert Pow2(4) == 16;
    Pow2Adds(4, 4);
    Pow2Adds(8, 8);
    Pow2Adds(16, 16);
  }
}
