/** 64-bit limbs and the machine operations on them, with every wrap-around written out. */
module Limbs {

  const BASE: int := 0x1_0000_0000_0000_0000
  const HALF: int := 0x8000_0000_0000_0000

  type u64 = x: int | 0 <= x < 0x1_0000_0000_0000_0000
  type bit = x: int | 0 <= x < 2

  /** `_addcarry_u64`: sum and carry out. */
  function AddCarry(c: bit, a: u64, b: u64): (r: (u64, bit))
    ensures r.0 + r.1 * BASE == a + b + c
  {
    if a + b + c >= BASE then (a + b + c - BASE, 1) else (a + b + c, 0)
  }

  /** `_subborrow_u64`: difference and borrow out. */
  function SubBorrow(c: bit, a: u64, b: u64): (r: (u64, bit))
    ensures r.0 - r.1 * BASE == a - b - c
  {
    if a - b - c < 0 then (a - b - c + BASE, 1) else (a - b - c, 0)
  }

  /** `_umul128`: low and high half of the product. */
  function Umul(a: u64, b: u64): (r: (u64, u64))
    ensures r.0 + r.1 * BASE == a * b
    ensures r.1 <= BASE - 2
  {
    ProductBound(a, BASE - 1, b, BASE - 1);
    ((a * b) % BASE, (a * b) / BASE)
  }

  lemma ProductBound(a: int, m: int, b: int, n: int)
    requires 0 <= a <= m && 0 <= b <= n
    ensures 0 <= a * b <= m * n
  {
    assert a * b <= m * b;
    assert m * b <= m * n;
  }

  /** Low half of the sum, carry discarded (`+` on unsigned 64-bit values). */
  function Wrap(x: int): (r: u64)
    ensures 0 <= x < BASE ==> r == x
  {
    x % BASE
  }

  /** `__shiftright128(lo, hi, 1)`. */
  function ShiftRight1(lo: u64, hi: u64): (r: u64)
    ensures r + (hi / 2) * BASE == (lo + hi * BASE) / 2
  {
    lo / 2 + (hi % 2) * HALF
  }

  /** `__shiftright128(lo, hi, 63)`. */
  function ShiftRight63(lo: u64, hi: u64): (r: u64)
    ensures r + (hi / HALF) * BASE == (lo + hi * BASE) / HALF
  {
    lo / HALF + (hi % HALF) * 2
  }

  /** `__shiftleft128(lo, hi, 1)`. */
  function ShiftLeft1(lo: u64, hi: u64): (r: u64)
    ensures hi < HALF ==> (2 * lo) % BASE + r * BASE == 2 * (lo + hi * BASE)
  {
    (2 * hi) % BASE + lo / HALF
  }
}
