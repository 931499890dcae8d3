/**
  The C# integer conversions the inspector applies when it writes values back
  into game memory: unchecked casts keep the low bits, so each one is a
  reduction into the target type's range.
*/
module Casts {

  const UShortRange: int := 0x1_0000
  const ByteRange: int := 0x100
  const Int32Range: int := 0x1_0000_0000

  /** A `uint`. */
  type UInt32 = n: int | 0 <= n < 0x1_0000_0000

  /** `(ushort)v`: the low 16 bits, as a value in 0..65535. */
  function ToUShort(v: int): (r: int)
    ensures 0 <= r < UShortRange
    ensures 0 <= v < UShortRange ==> r == v
    ensures (r - v) % UShortRange == 0
  {
    v % UShortRange
  }

  /** `(byte)v`: the low 8 bits, as a value in 0..255. */
  function ToByte(v: int): (r: int)
    ensures 0 <= r < ByteRange
    ensures 0 <= v < ByteRange ==> r == v
    ensures (r - v) % ByteRange == 0
  {
    v % ByteRange
  }

  /** `(short)v`: the low 16 bits read as two's complement, in -32768..32767. */
  function ToShort(v: int): (r: int)
    ensures -0x8000 <= r < 0x8000
    ensures -0x8000 <= v < 0x8000 ==> r == v
    ensures (r - v) % UShortRange == 0
  {
    var u := v % UShortRange;
    if u < 0x8000 then u else u - UShortRange
  }

  /** Unchecked 32-bit signed arithmetic: the result wrapped into -2^31..2^31-1. */
  function ToInt32(v: int): (r: int)
    ensures -0x8000_0000 <= r < 0x8000_0000
    ensures -0x8000_0000 <= v < 0x8000_0000 ==> r == v
    ensures (r - v) % Int32Range == 0
  {
    var u := v % Int32Range;
    if u < 0x8000_0000 then u else u - Int32Range
  }

  /** `(int)x` for a float: the integer part, truncated toward zero. */
  function Truncate(x: real): (r: int)
    ensures 0.0 <= x ==> 0 <= r && r as real <= x < r as real + 1.0
    ensures x < 0.0 ==> r <= 0 && r as real - 1.0 < x <= r as real
  {
    if x >= 0.0 then x.Floor else -((-x).Floor)
  }

  lemma MulAtLeast(a: int, n: int)
    requires a >= 1 && n > 0
    ensures a * n >= n
    decreases a
  {
    if a > 1 {
      MulAtLeast(a - 1, n);
      assert a * n == (a - 1) * n + n;
    }
  }

  /** The remainder is the unique `r` in `0 .. n - 1` with `x == q * n + r`. */
  lemma ModUnique(x: int, n: int, q: int, r: int)
    requires n > 0 && 0 <= r < n && x == q * n + r
    ensures x % n == r
  {
    var q', r' := x / n, x % n;
    assert x == q' * n + r';
    if q' < q {
      assert (q - q') * n == r' - r;
      MulAtLeast(q - q', n);
    } else if q' > q {
      assert (q' - q) * n == r - r';
      MulAtLeast(q' - q, n);
    }
  }

  /** Adding or subtracting the modulus keeps the remainder. */
  lemma ModStep(x: int, n: int)
    requires n > 0
    ensures (x + n) % n == x % n
    ensures (x - n) % n == x % n
  {
    var q, r := x / n, x % n;
    assert x + n == (q + 1) * n + r;
    assert x - n == (q - 1) * n + r;
    ModUnique(x + n, n, q + 1, r);
    ModUnique(x - n, n, q - 1, r);
  }
}
