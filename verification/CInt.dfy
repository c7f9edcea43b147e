// Fixed-width C integers, and C's truncating division.
module CInt {
  newtype int32 = x: int | -0x8000_0000 <= x < 0x8000_0000
  newtype int64 = x: int | -0x8000_0000_0000_0000 <= x < 0x8000_0000_0000_0000
  newtype uint8 = x: int | 0 <= x < 0x100
  newtype uint16 = x: int | 0 <= x < 0x1_0000
  newtype uint32 = x: int | 0 <= x < 0x1_0000_0000

  const INT32_MIN: int := -0x8000_0000
  const INT32_MAX: int := 0x7fff_ffff
  const UINT32_COUNT: int := 0x1_0000_0000

  predicate FitsInt32(x: int) {
    INT32_MIN <= x <= INT32_MAX
  }

  // The value an int object holds after an out-of-range value was stored in it.
  function WrapInt32(x: int): int32 {
    var low := x % UINT32_COUNT;
    (if low > INT32_MAX then low - UINT32_COUNT else low) as int32
  }

  lemma WrapKeepsWhatFits(x: int)
    ensures WrapInt32(x) as int == x <==> FitsInt32(x)
  {
  }

  // It is the value of that width with the same low 32 bits.
  lemma WrapKeepsLowBits(x: int)
    ensures WrapInt32(x) as int % UINT32_COUNT == x % UINT32_COUNT
  {
    var low := x % UINT32_COUNT;
    var k := if low > INT32_MAX then x / UINT32_COUNT + 1 else x / UINT32_COUNT;
    SameRemainder(WrapInt32(x) as int, x, UINT32_COUNT, -k);
  }

  // C's '/': rounds toward zero, where Dafny's rounds down for a positive divisor.
  function TruncDiv(a: int, b: int): int
    requires b > 0
  {
    if a >= 0 then a / b else -(-a / b)
  }

  // C's '%': the remainder has the sign of the dividend.
  function TruncMod(a: int, b: int): int
    requires b > 0
  {
    a - b * TruncDiv(a, b)
  }

  // Quotient and remainder are the only pair that fits.
  lemma DivisionIsUnique(x: int, n: int, q: int, r: int)
    requires n > 0 && x == n * q + r && 0 <= r < n
    ensures x / n == q && x % n == r
  {
    var d := q - x / n;
    assert n * d == x % n - r;
    assert d >= 1 ==> n * d >= n;
    assert d <= -1 ==> n * d <= -n;
  }

  // Adding the divisor to a negative C remainder, and borrowing one from the
  // quotient, gives the division that rounds down.
  lemma RepairedDivision(a: int, b: int)
    requires b > 0
    ensures TruncMod(a, b) < 0 ==> a / b == TruncDiv(a, b) - 1 && a % b == TruncMod(a, b) + b
    ensures TruncMod(a, b) >= 0 ==> a / b == TruncDiv(a, b) && a % b == TruncMod(a, b)
    ensures -b < TruncMod(a, b) < b
  {
    var q, r := TruncDiv(a, b), TruncMod(a, b);
    assert a == b * q + r;
    if a < 0 {
      assert -a == b * (-a / b) + -a % b;
      assert b * q == -(b * (-a / b));
    }
    if r < 0 {
      assert b * (q - 1) + (r + b) == b * q + r;
      DivisionIsUnique(a, b, q - 1, r + b);
    } else {
      DivisionIsUnique(a, b, q, r);
    }
  }

  // Numbers a multiple of n apart have the same remainder.
  lemma SameRemainder(x: int, y: int, n: int, k: int)
    requires n > 0 && x == y + n * k
    ensures x % n == y % n
  {
    assert x == n * (y / n + k) + y % n;
    DivisionIsUnique(x, n, y / n + k, y % n);
  }

  lemma ShiftedRemainder(x: int, y: int, c: int, n: int)
    requires n > 0 && x % n == y % n
    ensures (x + c) % n == (y + c) % n
  {
    assert x + c == y + c + n * (x / n - y / n);
    SameRemainder(x + c, y + c, n, x / n - y / n);
  }
}
