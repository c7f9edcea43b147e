/** Machine words of 32 or 64 bits, and addresses kept in them. */
module Words {
  import opened CInt

  const UINT64_COUNT: int := 0x1_0000_0000_0000_0000

  // The width of 'long' and of a pointer.
  predicate IsWord(w: nat) {
    w == 32 || w == 64
  }

  function Modulus(w: nat): int
    requires IsWord(w)
  {
    if w == 32 then UINT32_COUNT else UINT64_COUNT
  }

  // The value of an intptr_t that x was converted to.
  function Signed(w: nat, x: int): int
    requires IsWord(w)
  {
    var low := x % Modulus(w);
    if low >= Modulus(w) / 2 then low - Modulus(w) else low
  }

  predicate FitsWord(w: nat, x: int)
    requires IsWord(w)
  {
    -Modulus(w) / 2 <= x < Modulus(w) / 2
  }

  // An intptr_t stored in a uint64_t, which extends its sign ...
  function Widened(w: nat, x: int): nat
    requires IsWord(w)
  {
    Signed(w, x) % UINT64_COUNT
  }

  // ... and the pointer it stands for.
  function Pointer(w: nat, base: nat): nat
    requires IsWord(w)
  {
    base % Modulus(w)
  }

  // A stretch that begins in the lower half of the address space and ends in the upper one.
  predicate Crosses(w: nat, p: int, d: int)
    requires IsWord(w)
  {
    p < Modulus(w) / 2 <= p + d
  }

  lemma SignedOf(w: nat, x: int)
    requires IsWord(w) && 0 <= x < Modulus(w)
    ensures Signed(w, x) == if x >= Modulus(w) / 2 then x - Modulus(w) else x
  {
    DivisionIsUnique(x, Modulus(w), 0, x);
  }

  // The conversion gives the value of the word with the same low bits, which fixes it.
  lemma SignedIs(w: nat, x: int, y: int)
    requires IsWord(w)
    ensures y == Signed(w, x) <==> FitsWord(w, y) && y % Modulus(w) == x % Modulus(w)
  {
    var m := Modulus(w);
    var k := if x % m >= m / 2 then x / m + 1 else x / m;
    assert Signed(w, x) == x - m * k;
    SameRemainder(Signed(w, x), x, m, -k);
    if FitsWord(w, y) && y % m == x % m {
      assert y - Signed(w, x) == m * (y / m - Signed(w, x) / m);
      Apart(y / m - Signed(w, x) / m, m, y - Signed(w, x));
    }
  }

  lemma Apart(q: int, m: int, d: int)
    requires d == m * q && -m < d < m
    ensures d == 0
  {
    assert q >= 1 ==> m * q >= m;
    assert q <= -1 ==> m * q <= -m;
  }

  // Adding to a converted value and converting again is adding first.
  lemma SignedAdds(w: nat, x: int, s: int)
    requires IsWord(w)
    ensures Signed(w, Signed(w, x) + s) == Signed(w, x + s)
  {
    var m := Modulus(w);
    var k := if x % m >= m / 2 then x / m + 1 else x / m;
    assert Signed(w, x) == x - m * k;
    SameRemainder(Signed(w, x) + s, x + s, m, -k);
  }

  lemma PointerOfWidened(w: nat, x: int)
    requires IsWord(w)
    ensures Pointer(w, Widened(w, x)) == x % Modulus(w)
    ensures Signed(w, Widened(w, x)) == Signed(w, x)
  {
    var m := Modulus(w);
    var y := Signed(w, x);
    var k := if x % m >= m / 2 then x / m + 1 else x / m;
    SameRemainder(y, x, m, -k);
    var q := UINT64_COUNT / m;
    assert UINT64_COUNT == m * q;
    assert y % UINT64_COUNT == y - UINT64_COUNT * (y / UINT64_COUNT);
    SameRemainder(y % UINT64_COUNT, y, m, -(q * (y / UINT64_COUNT)));
  }

  lemma PointerAt(w: nat, p: nat)
    requires IsWord(w) && p < Modulus(w)
    ensures Pointer(w, Widened(w, p)) == p
  {
    PointerOfWidened(w, p);
    DivisionIsUnique(p, Modulus(w), 0, p);
  }

  // The difference of two addresses as an intptr_t: what lies between them, unless the stretch
  // crosses into the upper half.
  lemma SignedDifference(w: nat, p: nat, d: nat)
    requires IsWord(w) && p + d < Modulus(w)
    ensures Signed(w, p + d) - Signed(w, p) == if Crosses(w, p, d) then d - Modulus(w) else d
    ensures FitsWord(w, Signed(w, p + d) - Signed(w, p)) <==> !Crosses(w, p, d) || d >= Modulus(w) / 2
  {
    SignedOf(w, p);
    SignedOf(w, p + d);
  }

  // The difference of the same addresses kept in a uint64_t.
  lemma WidenedDifference(w: nat, p: nat, d: nat)
    requires IsWord(w) && p + d < Modulus(w)
    ensures w == 64 || !Crosses(w, p, d) ==> (Widened(w, p + d) - Widened(w, p)) % UINT64_COUNT == d
    ensures w == 32 && Crosses(w, p, d) ==>
      (Widened(w, p + d) - Widened(w, p)) % UINT64_COUNT == d + UINT64_COUNT - UINT32_COUNT
    ensures (Widened(w, p + d) - Widened(w, p)) % UINT64_COUNT % Modulus(w) == d
  {
    var a, b := Signed(w, p + d), Signed(w, p);
    SignedDifference(w, p, d);
    hide Signed;
    RemaindersSubtract(a, b, UINT64_COUNT);
    if w == 32 && Crosses(w, p, d) {
      DivisionIsUnique(d - UINT32_COUNT, UINT64_COUNT, -1, d + UINT64_COUNT - UINT32_COUNT);
      DivisionIsUnique(d + UINT64_COUNT - UINT32_COUNT, UINT32_COUNT, UINT32_COUNT - 1, d);
    } else if Crosses(w, p, d) {
      DivisionIsUnique(d - UINT64_COUNT, UINT64_COUNT, -1, d);
      DivisionIsUnique(d, UINT64_COUNT, 0, d);
    } else {
      DivisionIsUnique(d, UINT64_COUNT, 0, d);
      DivisionIsUnique(d, Modulus(w), 0, d);
    }
  }

  lemma RemaindersSubtract(a: int, b: int, m: int)
    requires m > 0
    ensures (a % m - b % m) % m == (a - b) % m
  {
    assert a == m * (a / m) + a % m && b == m * (b / m) + b % m;
    assert m * (b / m - a / m) == m * (b / m) - m * (a / m);
    SameRemainder(a % m - b % m, a - b, m, b / m - a / m);
  }
}
