/**
 * Fixed-width integers and the masking arithmetic of the emulator.
 *
 * JavaScript numbers are doubles; the emulator only ever stores integers in
 * them. On an integer operand `v & (2^k - 1)` first wraps `v` to a signed
 * 32-bit value and then keeps its low k bits, which for k < 32 is exactly the
 * Euclidean remainder `v % 2^k` (the 2^32 wrap is a multiple of 2^k). The
 * masks below are therefore written with Dafny's Euclidean `%`.
 */
module Bits {

  type byte = x: int | 0 <= x < 0x100
  type u12 = x: int | 0 <= x < 0x1000
  type u16 = x: int | 0 <= x < 0x1_0000
  type nibble = x: int | 0 <= x < 0x10

  /** `v & 0b1111` */
  function Mask4(v: int): nibble { v % 0x10 }

  /** `v & 0b11111111` */
  function Mask8(v: int): byte { v % 0x100 }

  /** `v & 0b111111111111` */
  function Mask12(v: int): u12 { v % 0x1000 }

  /** `v & 0b1111111111111111` */
  function Mask16(v: int): u16 { v % 0x1_0000 }

  /**
   * JavaScript's `a % m` for a positive modulus: the quotient truncates
   * toward zero, so the remainder takes the sign of `a`.
   */
  function JsRem(a: int, m: int): (r: int)
    requires m > 0
    ensures -m < r < m
    ensures a >= 0 ==> r == a % m
    ensures a < 0 ==> r <= 0
  {
    if a >= 0 then a % m else -((-a) % m)
  }

  /**
   * `JsRem` is the remainder of division with the quotient truncated toward
   * zero: `a == m * q + r` for that quotient, with `r` strictly between -m
   * and m and never of the opposite sign to `a`.
   */
  lemma JsRemTruncates(a: int, m: int)
    requires m > 0
    ensures a == m * (if a >= 0 then a / m else -((-a) / m)) + JsRem(a, m)
    ensures -m < JsRem(a, m) < m
    ensures a >= 0 ==> JsRem(a, m) >= 0
    ensures a < 0 ==> JsRem(a, m) <= 0
  {
    if a < 0 {
      assert -a == m * ((-a) / m) + (-a) % m;
    }
  }

  function Pow2(k: nat): (p: nat)
    ensures p >= 1
  {
    if k == 0 then 1 else 2 * Pow2(k - 1)
  }
}
