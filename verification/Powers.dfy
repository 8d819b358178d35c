/** Powers of two and positional values. */
module Powers {

  function Pow2(n: nat): (p: nat)
    ensures p >= 1
  {
    if n == 0 then 1 else 2 * Pow2(n - 1)
  }

  lemma {:induction false} Pow2Monotone(m: nat, n: nat)
    requires m <= n
    ensures Pow2(m) <= Pow2(n)
  {
    if m < n { Pow2Monotone(m, n - 1); }
  }

  /** `e * 2^n`. */
  function Shift(e: int, n: nat): (s: int)
    ensures e >= 0 ==> s >= 0
  {
    if n == 0 then e else 2 * Shift(e, n - 1)
  }

  lemma Shift4(e: int, n: nat)
    ensures Shift(e, n + 4) == 16 * Shift(e, n)
  {
    assert Shift(e, n + 4) == 2 * Shift(e, n + 3) == 4 * Shift(e, n + 2);
    assert Shift(e, n + 2) == 2 * Shift(e, n + 1);
  }

  lemma Shift16(e: int, n: nat)
    ensures Shift(e, n + 8) == 0x100 * Shift(e, n) && Shift(e, n + 16) == 0x1_0000 * Shift(e, n)
  {
    Shift4(e, n);
    Shift4(e, n + 4);
    Shift4(e, n + 8);
    Shift4(e, n + 12);
  }

  lemma Shift64(e: int, n: nat)
    ensures Shift(e, n + 32) == 0x1_0000_0000 * Shift(e, n)
    ensures Shift(e, n + 64) == 0x1_0000_0000_0000_0000 * Shift(e, n)
  {
    Shift16(e, n);
    Shift16(e, n + 16);
    Shift16(e, n + 32);
    Shift16(e, n + 48);
  }

  lemma {:induction false} ShiftIsPow2(n: nat)
    ensures Shift(1, n) == Pow2(n)
  {
    if n > 0 { ShiftIsPow2(n - 1); }
  }

  // ----- Signed digits, lowest first -----

  /** The value of the digits `ds` with `tail` on top of them. */
  ghost function Horner(ds: seq<int>, tail: int): int {
    if ds == [] then tail else ds[0] + 2 * Horner(ds[1..], tail)
  }

  lemma {:induction false} HornerAppend(ds: seq<int>, d: int, tail: int)
    ensures Horner(ds + [d], tail) == Horner(ds, d + 2 * tail)
  {
    if ds == [] {
      assert (ds + [d])[1..] == [];
    } else {
      assert (ds + [d])[1..] == ds[1..] + [d];
      HornerAppend(ds[1..], d, tail);
    }
  }
}
