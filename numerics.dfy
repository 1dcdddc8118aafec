/** Go's fixed-width integers and the conversions between them, written out over
    unbounded `int`. Every truncation the Go code performs implicitly appears here
    as an explicit function. */
module Numerics {

  const TWO_63: int := 0x8000_0000_0000_0000
  const TWO_64: int := 0x1_0000_0000_0000_0000

  /** One octet. */
  type byte = x: int | 0 <= x < 256

  /** Go's `uint64`. */
  type uint64 = x: int | 0 <= x < 0x1_0000_0000_0000_0000

  /** Values a Go `int` or `int64` can hold (the core assumes a 64-bit platform). */
  predicate IsInt64(n: int) {
    -TWO_63 <= n < TWO_63
  }

  /** Values a Go `int32` can hold. */
  predicate IsInt32(n: int) {
    -0x8000_0000 <= n < 0x8000_0000
  }

  /** The conversion `uint64(x)` of a Go integer: keep the low 64 bits. */
  function Uint64Of(n: int): (r: uint64)
    ensures 0 <= n < TWO_64 ==> r == n
    ensures IsInt64(n) && n < 0 ==> r == n + TWO_64
  {
    n % TWO_64
  }

  /** Reading a 64-bit pattern as a two's-complement `int64`. */
  function Signed64(u: uint64): (r: int)
    ensures IsInt64(r)
    ensures Uint64Of(r) == u
  {
    if u < TWO_63 then u else u - TWO_64
  }

  /** The conversion `int64(x)`; math/big's `Int64()` computes the same value
      (the low 64 bits of the magnitude, negated for a negative number). */
  function Int64Of(n: int): (r: int)
    ensures IsInt64(r)
    ensures IsInt64(n) ==> r == n
    ensures Uint64Of(r) == Uint64Of(n)
  {
    Signed64(Uint64Of(n))
  }

  /** math/big's `Uint64()`: the low 64 bits of the magnitude. */
  function BigUint64(n: int): (r: uint64)
    ensures 0 <= n < TWO_64 ==> r == n
  {
    (if n < 0 then -n else n) % TWO_64
  }

  /** `b ** k` for natural numbers. */
  function Pow(b: nat, k: nat): (r: nat)
    ensures b > 0 ==> r > 0
  {
    if k == 0 then 1 else b * Pow(b, k - 1)
  }

  lemma {:induction false} PowAdd(b: nat, m: nat, n: nat)
    ensures Pow(b, m + n) == Pow(b, m) * Pow(b, n)
  {
    if n > 0 {
      var x, y := Pow(b, m), Pow(b, n - 1);
      calc {
        Pow(b, m + n);
        b * Pow(b, m + (n - 1));
        { PowAdd(b, m, n - 1); }
        b * (x * y);
        x * (b * y);
        Pow(b, m) * Pow(b, n);
      }
    }
  }

  /** The powers of two that stand for Go's 32- and 64-bit widths. */
  lemma PowersOfTwo()
    ensures Pow(2, 7) == 128 && Pow(2, 31) == 0x8000_0000 && Pow(2, 32) == 0x1_0000_0000
    ensures Pow(2, 63) == TWO_63 && Pow(2, 64) == TWO_64
  {
    assert Pow(2, 4) == 16;
    PowAdd(2, 3, 4);
    PowAdd(2, 4, 4);
    PowAdd(2, 8, 8);
    PowAdd(2, 16, 15);
    PowAdd(2, 16, 16);
    PowAdd(2, 32, 31);
    PowAdd(2, 32, 32);
  }

  /** Bitwise exclusive or of the low `w` bits of `a` and `b` (Go's `^` on a
      `w`-bit unsigned integer). */
  function Xor(a: nat, b: nat, w: nat): (r: nat)
    ensures r < Pow(2, w)
  {
    if w == 0 then 0
    else (if a % 2 != b % 2 then 1 else 0) + 2 * Xor(a / 2, b / 2, w - 1)
  }

  lemma {:induction false} XorZero(a: nat, w: nat)
    requires a < Pow(2, w)
    ensures Xor(a, 0, w) == a
  {
    if w > 0 { XorZero(a / 2, w - 1); }
  }

  lemma {:induction false} XorOnes(a: nat, w: nat)
    requires a < Pow(2, w)
    ensures Xor(a, Pow(2, w) - 1, w) == Pow(2, w) - 1 - a
  {
    if w > 0 {
      assert (Pow(2, w) - 1) / 2 == Pow(2, w - 1) - 1;
      assert (Pow(2, w) - 1) % 2 == 1;
      XorOnes(a / 2, w - 1);
    }
  }
}
