/** The addition chain of the GF(p) exponentiation by 2^125 - 1. */
module FourQExp {
  import opened Limbs
  import opened FourQField
  import opened Powers

  ghost function Exp(a: int, e: nat): int {
    if e == 0 then 1 else a * Exp(a, e - 1)
  }

  /** `v` stands for `a^e`. */
  ghost predicate IsPower(v: int, a: int, e: nat) {
    Congruent(v, Exp(a, e))
  }

  lemma {:induction false} ExpAdd(a: int, e: nat, f: nat)
    ensures Exp(a, e + f) == Exp(a, e) * Exp(a, f)
  {
    if e > 0 {
      ExpAdd(a, e - 1, f);
      assert a * (Exp(a, e - 1) * Exp(a, f)) == a * Exp(a, e - 1) * Exp(a, f);
    }
  }

  lemma {:induction false} PowerMul(a: int, x: int, e: nat, y: int, f: nat, z: int)
    requires IsPower(x, a, e) && IsPower(y, a, f) && Congruent(z, x * y)
    ensures IsPower(z, a, e + f)
  {
    CongruentMul(x, Exp(a, e), y, Exp(a, f));
    ExpAdd(a, e, f);
  }

  /** One squaring. */
  method SquareOnce(x: array<u64>, t: array<u64>, ghost a: int, ghost e: nat)
    requires Felm(x) && t.Length == 2 && IsPower(ValOf(x), a, e)
    modifies t
    ensures Felm(t) && IsPower(ValOf(t), a, 2 * e)
  {
    ghost var v := ValOf(x);
    FpSqr(x, t);
    PowerMul(a, v, e, v, e, ValOf(t));
  }

  /** A run of `n` squarings from `x` to `t`; the first may read another element. */
  method SquareRun(x: array<u64>, t: array<u64>, n: nat, ghost a: int, ghost e: nat)
    requires Felm(x) && t.Length == 2 && n > 0 && IsPower(ValOf(x), a, e)
    modifies t
    ensures Felm(t) && IsPower(ValOf(t), a, Shift(e, n))
  {
    SquareOnce(x, t, a, e);
    for i := 1 to n
      invariant Felm(t) && IsPower(ValOf(t), a, Shift(e, i))
    {
      SquareOnce(t, t, a, Shift(e, i));
    }
  }

  /** One multiplication of the chain. */
  method MulPower(x: array<u64>, y: array<u64>, z: array<u64>, ghost a: int, ghost e: nat, ghost f: nat)
    requires Felm(x) && Felm(y) && z.Length == 2 && IsPower(ValOf(x), a, e) && IsPower(ValOf(y), a, f)
    modifies z
    ensures Felm(z) && IsPower(ValOf(z), a, e + f)
  {
    ghost var v, w := ValOf(x), ValOf(y);
    FpMul(x, y, z);
    PowerMul(a, v, e, w, f, ValOf(z));
  }

  /** Extends a block of ones: `t` becomes `a^(2^n * (e + 1) - 1)` when `x` is `a^e` and `y` is `a^(2^n - 1)`. */
  method ExtendOnes(x: array<u64>, y: array<u64>, t: array<u64>, n: nat, ghost a: int, ghost e: nat, ghost f: nat)
    requires Felm(x) && Felm(y) && t.Length == 2 && y != t && n > 0
    requires IsPower(ValOf(x), a, e) && IsPower(ValOf(y), a, f)
    modifies t
    ensures Felm(t) && IsPower(ValOf(t), a, f + Shift(e, n))
  {
    SquareRun(x, t, n, a, e);
    MulPower(y, t, t, a, f, Shift(e, n));
  }

  const K1: nat := 1
  const K2: nat := 0x3
  const K4: nat := 0xF
  const K8: nat := 0xFF
  const K16: nat := 0xFFFF
  const K32: nat := 0xFFFF_FFFF
  const K64: nat := 0xFFFF_FFFF_FFFF_FFFF
  const K96: nat := 0xFFFF_FFFF_FFFF_FFFF_FFFF_FFFF
  const K112: nat := 0xFFFF_FFFF_FFFF_FFFF_FFFF_FFFF_FFFF
  const K120: nat := 0xFF_FFFF_FFFF_FFFF_FFFF_FFFF_FFFF_FFFF
  const K124: nat := 0xFFF_FFFF_FFFF_FFFF_FFFF_FFFF_FFFF_FFFF
  const K125: nat := 0x1FFF_FFFF_FFFF_FFFF_FFFF_FFFF_FFFF_FFFF

  /** The shifts the chain uses. */
  lemma ShiftValues(e: nat)
    ensures Shift(e, 1) == 2 * e && Shift(e, 2) == 4 * e && Shift(e, 4) == 16 * e
    ensures Shift(e, 8) == 0x100 * e && Shift(e, 16) == 0x1_0000 * e && Shift(e, 32) == 0x1_0000_0000 * e
  {
    assert Shift(e, 0) == e;
    Shift4(e, 0);
    Shift16(e, 0);
    Shift64(e, 0);
  }

  /** The blocks `a^(2^n - 1)` for n = 4 and 8. */
  method ShortOnes(a: array<u64>, ghost v: int) returns (t3: array<u64>, t4: array<u64>)
    requires Felm(a) && v == ValOf(a)
    ensures fresh({t3, t4}) && Felm(t3) && Felm(t4) && IsPower(ValOf(t3), v, K4) && IsPower(ValOf(t4), v, K8)
  {
    var t2 := new u64[2];
    t3, t4 := new u64[2], new u64[2];
    ExpOne(v);
    ShiftValues(K1);
    ExtendOnes(a, a, t2, 1, v, K1, K1);
    ShiftValues(K2);
    ExtendOnes(t2, t2, t3, 2, v, K2, K2);
    ShiftValues(K4);
    ExtendOnes(t3, t3, t4, 4, v, K4, K4);
  }

  /** The blocks for n = 16 and 32. */
  method MediumOnes(t4: array<u64>, ghost v: int) returns (t5: array<u64>, t2: array<u64>)
    requires Felm(t4) && IsPower(ValOf(t4), v, K8)
    ensures fresh({t5, t2}) && Felm(t5) && Felm(t2) && IsPower(ValOf(t5), v, K16) && IsPower(ValOf(t2), v, K32)
  {
    t5, t2 := new u64[2], new u64[2];
    ShiftValues(K8);
    ExtendOnes(t4, t4, t5, 8, v, K8, K8);
    ShiftValues(K16);
    ExtendOnes(t5, t5, t2, 16, v, K16, K16);
  }

  /** From `a^(2^32 - 1)` to `a^(2^112 - 1)`. */
  method LongOnes(t2: array<u64>, t5: array<u64>, ghost v: int) returns (t1: array<u64>)
    requires Felm(t2) && Felm(t5) && IsPower(ValOf(t5), v, K16) && IsPower(ValOf(t2), v, K32)
    ensures fresh(t1) && Felm(t1) && IsPower(ValOf(t1), v, K112)
  {
    t1 := new u64[2];
    ShiftValues(K32);
    ExtendOnes(t2, t2, t1, 32, v, K32, K32);
    ShiftValues(K64);
    ExtendOnes(t1, t2, t1, 32, v, K64, K32);
    ShiftValues(K96);
    ExtendOnes(t1, t5, t1, 16, v, K96, K16);
  }

  /** `fpexp1251`: `af = a^(2^125 - 1)`. */
  method FpExp1251(a: array<u64>, af: array<u64>)
    requires Felm(a) && af.Length == 2
    modifies af
    ensures Felm(af) && IsPower(ValOf(af), old(ValOf(a)), K125)
  {
    ghost var v := ValOf(a);
    var t3, t4 := ShortOnes(a, v);
    var t5, t2 := MediumOnes(t4, v);
    var t1 := LongOnes(t2, t5, v);
    ShiftValues(K112);
    ExtendOnes(t1, t4, t1, 8, v, K112, K8);
    ShiftValues(K120);
    ExtendOnes(t1, t3, t1, 4, v, K120, K4);
    ShiftValues(K124);
    SquareRun(t1, t1, 1, v, K124);
    ExpOne(v);
    MulPower(a, t1, af, v, K1, Shift(K124, 1));
  }

  lemma ExpOne(a: int)
    ensures Exp(a, K1) == a
  {
    assert Exp(a, 0) == 1;
  }
}
