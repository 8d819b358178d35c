/** GF(p) and GF(p^2) arithmetic for p = 2^127 - 1 on two 64-bit limbs per element. */
module FourQField {
  import opened Limbs

  const P: int := 0x7FFF_FFFF_FFFF_FFFF_FFFF_FFFF_FFFF_FFFF
  const TWO127: int := 0x8000_0000_0000_0000_0000_0000_0000_0000

  /** An element of GF(p): two limbs, at most 2^127 - 1, with 0 and p both standing for zero. */
  function Val(lo: u64, hi: u64): (v: int)
    ensures 0 <= v && (v < TWO127 <==> hi < HALF)
  {
    lo + hi * BASE
  }

  ghost function ValOf(a: array<u64>): int
    requires a.Length == 2
    reads a
  {
    Val(a[0], a[1])
  }

  ghost predicate Felm(a: array<u64>)
    reads a
  {
    a.Length == 2 && a[1] < HALF
  }

  /** Equality modulo p. */
  ghost predicate Congruent(x: int, y: int) {
    x % P == y % P
  }

  lemma AddMultiple(x: int, k: int)
    ensures Congruent(x + k * P, x)
  {
  }

  /** How many times p the two values are apart. */
  lemma Multiple(x: int, y: int) returns (k: int)
    requires Congruent(x, y)
    ensures x == y + k * P
  {
    k := x / P - y / P;
  }

  lemma CongruentSub(x: int, x': int, y: int, y': int)
    requires Congruent(x, x') && Congruent(y, y')
    ensures Congruent(x - y, x' - y') && Congruent(x + y, x' + y')
  {
    var j := Multiple(x, x');
    var k := Multiple(y, y');
    AddMultiple(x' - y', j - k);
    AddMultiple(x' + y', j + k);
  }

  lemma {:induction false} CongruentMul(x: int, x': int, y: int, y': int)
    requires Congruent(x, x') && Congruent(y, y')
    ensures Congruent(x * y, x' * y')
  {
    var j := Multiple(x, x');
    var k := Multiple(y, y');
    assert x * y == x' * y' + (j * y + x' * k) * P;
    AddMultiple(x' * y', j * y + x' * k);
  }

  // ----- Folding: 2^127 is 1 -----

  /** Adds bit 127 back at the bottom. The last line of every operation. */
  function Fold(lo: u64, hi: u64): (r: (u64, u64))
    ensures r.1 < HALF || Val(lo, hi) == 2 * TWO127 - 1
    ensures Val(lo, hi) <= 2 * TWO127 - 2 ==>
              Val(r.0, r.1) == if Val(lo, hi) >= TWO127 then Val(lo, hi) - P else Val(lo, hi)
  {
    var s := AddCarry(0, lo, hi / HALF);
    var t := AddCarry(s.1, hi % HALF, 0);
    (s.0, t.0)
  }

  /** The same for a difference: a set bit 127 means a borrow of 2^128, one of which is 2. */
  function BorrowFold(lo: u64, hi: u64): (r: (u64, u64))
    ensures Val(lo, hi) != TWO127 ==>
              r.1 < HALF && Val(r.0, r.1) == if Val(lo, hi) >= TWO127 then Val(lo, hi) - TWO127 - 1 else Val(lo, hi)
  {
    var u := SubBorrow(0, lo, hi / HALF);
    var v := SubBorrow(u.1, hi % HALF, 0);
    (u.0, v.0)
  }

  /** `fpadd1271`. */
  method FpAdd(a: array<u64>, b: array<u64>, c: array<u64>)
    requires Felm(a) && Felm(b) && c.Length == 2
    modifies c
    ensures Felm(c)
    ensures var s := old(ValOf(a)) + old(ValOf(b)); ValOf(c) == if s >= TWO127 then s - P else s
  {
    var s := AddCarry(0, a[0], b[0]);
    var t := AddCarry(s.1, a[1], b[1]);
    var r := Fold(s.0, t.0);
    c[0], c[1] := r.0, r.1;
  }

  /** `fpsub1271`. */
  method FpSub(a: array<u64>, b: array<u64>, c: array<u64>)
    requires Felm(a) && Felm(b) && c.Length == 2
    modifies c
    ensures Felm(c)
    ensures var s := old(ValOf(a)) - old(ValOf(b)); ValOf(c) == if s < 0 then s + P else s
  {
    var s := SubBorrow(0, a[0], b[0]);
    var t := SubBorrow(s.1, a[1], b[1]);
    assert Val(s.0, t.0) == Val(a[0], a[1]) - Val(b[0], b[1]) + t.1 * 2 * TWO127;
    var r := BorrowFold(s.0, t.0);
    c[0], c[1] := r.0, r.1;
  }

  /** `fpneg1271`, in place. */
  method FpNeg(a: array<u64>)
    requires Felm(a)
    modifies a
    ensures Felm(a) && ValOf(a) == P - old(ValOf(a))
  {
    a[0], a[1] := BASE - 1 - a[0], HALF - 1 - a[1];
  }

  /** `mod1271`: the representative below p. */
  method Mod1271(a: array<u64>)
    requires Felm(a)
    modifies a
    ensures Felm(a) && ValOf(a) == old(ValOf(a)) % P
  {
    var s := SubBorrow(0, a[0], BASE - 1);
    var t := SubBorrow(s.1, a[1], HALF - 1);
    var top := t.0 / HALF;
    var mask := if top == 1 then BASE - 1 else 0;
    var u := AddCarry(0, s.0, mask);
    var v := AddCarry(u.1, t.0, if top == 1 then HALF - 1 else 0);
    a[0], a[1] := u.0, v.0;
  }

  // ----- Multiplication -----

  /** The middle column of the product and the carry into it: `x + h + y` as two limbs. */
  function Middle(x: (u64, u64), h: u64, y: (u64, u64)): (r: (u64, u64))
    ensures Val(x.0, x.1) + h + Val(y.0, y.1) < BASE * BASE ==> Val(r.0, r.1) == Val(x.0, x.1) + h + Val(y.0, y.1)
  {
    var s := AddCarry(0, x.0, h);
    var t := AddCarry(s.1, x.1, 0);
    var u := AddCarry(0, s.0, y.0);
    var v := AddCarry(u.1, t.0, y.1);
    (u.0, v.0)
  }

  /** Everything from bit 127 on: twice the top product plus the middle column shifted down by 63. */
  function Upper(mid: (u64, u64), top: (u64, u64)): (r: (u64, u64))
    ensures Val(top.0, top.1) < TWO127 / 2 ==>
              Val(r.0, r.1) == 2 * Val(top.0, top.1) + Val(mid.0, mid.1) / HALF
  {
    var hi := ShiftLeft1(top.0, top.1);
    var s := AddCarry(0, ShiftRight63(mid.0, mid.1), (2 * top.0) % BASE);
    var t := AddCarry(s.1, mid.1 / HALF, hi);
    (s.0, t.0)
  }

  /** Everything below bit 127 plus everything from there on, folded once. */
  function Lower(low: u64, mid: (u64, u64), upper: (u64, u64)): (r: (u64, u64))
    ensures upper.1 < HALF ==> r.1 < HALF
    ensures upper.1 < HALF ==>
              var s := low + (mid.0 % HALF) * BASE + Val(upper.0, upper.1);
              Val(r.0, r.1) == if s >= TWO127 then s - P else s
  {
    var s := AddCarry(0, low, upper.0);
    var t := AddCarry(s.1, mid.0 % HALF, upper.1);
    Fold(s.0, t.0)
  }

  /** The columns of a product of two elements fit their limbs, and the part from bit 127 on
      is itself below 2^127. */
  lemma {:induction false} ColumnBounds(a0: u64, a1: u64, b0: u64, b1: u64)
    requires a1 < HALF && b1 < HALF
    ensures a0 * b1 + BASE + a1 * b0 < BASE * BASE
    ensures 0 <= a1 * b1 < TWO127 / 2 && 0 <= a0 * b0 && 0 <= a0 * b1 && 0 <= a1 * b0
    ensures a0 * b0 + (a0 * b1 + a1 * b0) * BASE + a1 * b1 * BASE * BASE <= P * P
  {
    ProductBound(a0, BASE - 1, b0, BASE - 1);
    ProductBound(a0, BASE - 1, b1, HALF - 1);
    ProductBound(a1, HALF - 1, b0, BASE - 1);
    ProductBound(a1, HALF - 1, b1, HALF - 1);
  }

  lemma ValProduct(a0: int, a1: int, b0: int, b1: int)
    ensures (a0 + a1 * BASE) * (b0 + b1 * BASE) == a0 * b0 + (a0 * b1 + a1 * b0) * BASE + a1 * b1 * BASE * BASE
  {
    var y := b0 + b1 * BASE;
    assert (a0 + a1 * BASE) * y == a0 * y + a1 * BASE * y;
    assert a0 * y == a0 * b0 + a0 * b1 * BASE;
    assert a1 * BASE * y == a1 * b0 * BASE + a1 * b1 * BASE * BASE;
  }

  /** The limbs of the reduced product, from the partial products `p`, `x`, `y` and `top`. */
  function Reduce(p: (u64, u64), x: (u64, u64), y: (u64, u64), top: (u64, u64)): (r: (u64, u64)) {
    var mid := Middle(x, p.1, y);
    Lower(p.0, mid, Upper(mid, top))
  }

  lemma SplitAtHalf(lo: u64, hi: u64)
    ensures Val(lo, hi) == lo % HALF + (Val(lo, hi) / HALF) * HALF
  {
    DivHalf(lo, lo / HALF, hi, lo % HALF);
  }

  lemma DivHalf(lo: int, q: int, hi: int, r: int)
    requires lo == q * HALF + r && 0 <= r < HALF
    ensures lo + hi * BASE == r + ((lo + hi * BASE) / HALF) * HALF
  {
    assert lo + hi * BASE == r + (q + 2 * hi) * HALF;
  }

  /** The product is its low 127 bits plus 2^127 times the upper part. */
  lemma ReduceSplits(p: (u64, u64), x: (u64, u64), y: (u64, u64), top: (u64, u64), v: int)
    requires Val(x.0, x.1) + p.1 + Val(y.0, y.1) < BASE * BASE && Val(top.0, top.1) < TWO127 / 2
    requires v == Val(p.0, p.1) + (Val(x.0, x.1) + Val(y.0, y.1)) * BASE + Val(top.0, top.1) * BASE * BASE
    ensures var mid := Middle(x, p.1, y);
            v == p.0 + (mid.0 % HALF) * BASE + Val(Upper(mid, top).0, Upper(mid, top).1) * TWO127
  {
    var mid := Middle(x, p.1, y);
    var w: int, t: int := Val(mid.0, mid.1), Val(top.0, top.1);
    assert v == p.0 + w * BASE + t * BASE * BASE;
    SplitAtHalf(mid.0, mid.1);
    assert w * BASE == (mid.0 % HALF) * BASE + (w / HALF) * TWO127;
  }

  lemma {:induction false} ReduceCorrect(p: (u64, u64), x: (u64, u64), y: (u64, u64), top: (u64, u64), v: int)
    requires Val(x.0, x.1) + p.1 + Val(y.0, y.1) < BASE * BASE && Val(top.0, top.1) < TWO127 / 2
    requires v == Val(p.0, p.1) + (Val(x.0, x.1) + Val(y.0, y.1)) * BASE + Val(top.0, top.1) * BASE * BASE <= P * P
    ensures var r := Reduce(p, x, y, top); r.1 < HALF && Congruent(Val(r.0, r.1), v)
  {
    ReduceSplits(p, x, y, top, v);
    var mid := Middle(x, p.1, y);
    LowerCorrect(p.0, mid, Upper(mid, top), v);
  }

  lemma LowerCorrect(low: u64, mid: (u64, u64), upper: (u64, u64), v: int)
    requires v == low + (mid.0 % HALF) * BASE + Val(upper.0, upper.1) * TWO127 <= P * P
    ensures var r := Lower(low, mid, upper); r.1 < HALF && Congruent(Val(r.0, r.1), v)
  {
    FoldCongruent(low + (mid.0 % HALF) * BASE, Val(upper.0, upper.1));
  }

  lemma {:induction false} MulLimbsCorrect(a0: u64, a1: u64, b0: u64, b1: u64)
    requires a1 < HALF && b1 < HALF
    ensures var r := Reduce(Umul(a0, b0), Umul(a0, b1), Umul(a1, b0), Umul(a1, b1));
            r.1 < HALF && Congruent(Val(r.0, r.1), Val(a0, a1) * Val(b0, b1))
  {
    ColumnBounds(a0, a1, b0, b1);
    ValProduct(a0, a1, b0, b1);
    ReduceCorrect(Umul(a0, b0), Umul(a0, b1), Umul(a1, b0), Umul(a1, b1), Val(a0, a1) * Val(b0, b1));
  }

  lemma FoldCongruent(low: int, high: int)
    ensures Congruent(low + high, low + high * TWO127) && Congruent(low + high - P, low + high * TWO127)
  {
    AddMultiple(low + high, high);
    AddMultiple(low + high, -1);
  }

  /** `fpmul1271`. The output may be one of the inputs. */
  method FpMul(a: array<u64>, b: array<u64>, c: array<u64>)
    requires Felm(a) && Felm(b) && c.Length == 2
    modifies c
    ensures Felm(c) && Congruent(ValOf(c), old(ValOf(a)) * old(ValOf(b)))
  {
    var r := Reduce(Umul(a[0], b[0]), Umul(a[0], b[1]), Umul(a[1], b[0]), Umul(a[1], b[1]));
    MulLimbsCorrect(a[0], a[1], b[0], b[1]);
    c[0], c[1] := r.0, r.1;
  }

  lemma UmulCommutes(a: u64, b: u64)
    ensures Umul(a, b) == Umul(b, a)
  {
    assert a * b == b * a;
  }

  /** `fpsqr1271`, with three partial products. */
  method FpSqr(a: array<u64>, c: array<u64>)
    requires Felm(a) && c.Length == 2
    modifies c
    ensures Felm(c) && Congruent(ValOf(c), old(ValOf(a)) * old(ValOf(a)))
  {
    var cross := Umul(a[0], a[1]);
    var r := Reduce(Umul(a[0], a[0]), cross, cross, Umul(a[1], a[1]));
    UmulCommutes(a[0], a[1]);
    MulLimbsCorrect(a[0], a[1], a[0], a[1]);
    c[0], c[1] := r.0, r.1;
  }

  // ----- GF(p^2) = GF(p)[i] / (i^2 + 1) -----

  datatype F2 = F2(re: array<u64>, im: array<u64>)

  ghost predicate F2elm(a: F2)
    reads a.re, a.im
  {
    Felm(a.re) && Felm(a.im)
  }

  /** Values after one more reduction step. */
  ghost predicate Reduced(v: int, s: int) {
    v == s || v == s - P || v == s + P
  }

  lemma ReducedCongruent(v: int, s: int)
    requires Reduced(v, s)
    ensures Congruent(v, s)
  {
    AddMultiple(s, -1);
    AddMultiple(s, 1);
  }

  /** The real part of `fp2mul1271`: the difference of two products. */
  lemma {:induction false} RealPart(a0: int, a1: int, b0: int, b1: int, t1: int, t2: int, c0: int)
    requires Congruent(t1, a0 * b0) && Congruent(t2, a1 * b1) && Reduced(c0, t1 - t2)
    ensures Congruent(c0, a0 * b0 - a1 * b1)
  {
    ReducedCongruent(c0, t1 - t2);
    CongruentSub(t1, a0 * b0, t2, a1 * b1);
  }

  /** The imaginary part, by one product of sums minus the two other products. */
  lemma {:induction false} ImaginaryPart(a0: int, a1: int, b0: int, b1: int, t1: int, t2: int, t3: int, t4: int,
                                         t5: int, t6: int, c1: int)
    requires Congruent(t1, a0 * b0) && Congruent(t2, a1 * b1)
    requires Reduced(t3, a0 + a1) && Reduced(t4, b0 + b1) && Congruent(t5, t3 * t4)
    requires Reduced(t6, t5 - t1) && Reduced(c1, t6 - t2)
    ensures Congruent(c1, a0 * b1 + a1 * b0)
  {
    ReducedCongruent(t3, a0 + a1);
    ReducedCongruent(t4, b0 + b1);
    CongruentMul(t3, a0 + a1, t4, b0 + b1);
    var m := (a0 + a1) * (b0 + b1);
    ReducedCongruent(t6, t5 - t1);
    CongruentSub(t5, m, t1, a0 * b0);
    ReducedCongruent(c1, t6 - t2);
    CongruentSub(t6, m - a0 * b0, t2, a1 * b1);
    assert m == a0 * b0 + a0 * b1 + a1 * b0 + a1 * b1;
  }

  /** `fp2mul1271`. The output may be one of the inputs, in whole or in part. */
  method Fp2Mul(a: F2, b: F2, c: F2)
    requires F2elm(a) && F2elm(b) && c.re.Length == 2 && c.im.Length == 2 && c.re != c.im
    modifies c.re, c.im
    ensures F2elm(c)
    ensures Congruent(ValOf(c.re), old(ValOf(a.re)) * old(ValOf(b.re)) - old(ValOf(a.im)) * old(ValOf(b.im)))
    ensures Congruent(ValOf(c.im), old(ValOf(a.re)) * old(ValOf(b.im)) + old(ValOf(a.im)) * old(ValOf(b.re)))
  {
    ghost var a0, a1, b0, b1 := ValOf(a.re), ValOf(a.im), ValOf(b.re), ValOf(b.im);
    var t1, t2, t3, t4 := ProductsAndSums(a, b);
    ghost var v1, v2, v3, v4 := ValOf(t1), ValOf(t2), ValOf(t3), ValOf(t4);
    FpSub(t1, t2, c.re);
    RealPart(a0, a1, b0, b1, v1, v2, ValOf(c.re));
    CombineIm(t1, t2, t3, t4, c.im, a0, a1, b0, b1);
  }

  /** The first four lines of `fp2mul1271`, which are the only ones that read the inputs. */
  method ProductsAndSums(a: F2, b: F2) returns (t1: array<u64>, t2: array<u64>, t3: array<u64>, t4: array<u64>)
    requires F2elm(a) && F2elm(b)
    ensures fresh({t1, t2, t3, t4}) && t1 != t2 && t1 != t3 && t1 != t4 && t2 != t3 && t2 != t4 && t3 != t4
    ensures Felm(t1) && Felm(t2) && Felm(t3) && Felm(t4)
    ensures Congruent(ValOf(t1), ValOf(a.re) * ValOf(b.re)) && Congruent(ValOf(t2), ValOf(a.im) * ValOf(b.im))
    ensures Reduced(ValOf(t3), ValOf(a.re) + ValOf(a.im)) && Reduced(ValOf(t4), ValOf(b.re) + ValOf(b.im))
  {
    t1, t2, t3, t4 := new u64[2], new u64[2], new u64[2], new u64[2];
    FpMul(a.re, b.re, t1);
    FpMul(a.im, b.im, t2);
    FpAdd(a.re, a.im, t3);
    FpAdd(b.re, b.im, t4);
  }

  /** The last three lines of `fp2mul1271`. */
  method CombineIm(t1: array<u64>, t2: array<u64>, t3: array<u64>, t4: array<u64>, c: array<u64>,
                   ghost a0: int, ghost a1: int, ghost b0: int, ghost b1: int)
    requires Felm(t1) && Felm(t2) && Felm(t3) && Felm(t4) && c.Length == 2
    requires t1 != t3 && t2 != t3 && c != t1 && c != t2 && c != t3
    requires Congruent(ValOf(t1), a0 * b0) && Congruent(ValOf(t2), a1 * b1)
    requires Reduced(ValOf(t3), a0 + a1) && Reduced(ValOf(t4), b0 + b1)
    modifies c, t3
    ensures Felm(c) && Congruent(ValOf(c), a0 * b1 + a1 * b0)
  {
    ghost var v1, v2, v3, v4 := ValOf(t1), ValOf(t2), ValOf(t3), ValOf(t4);
    FpMul(t3, t4, t3);
    ghost var v5 := ValOf(t3);
    FpSub(t3, t1, t3);
    ghost var v6 := ValOf(t3);
    FpSub(t3, t2, c);
    ImaginaryPart(a0, a1, b0, b1, v1, v2, v3, v4, v5, v6, ValOf(c));
  }

  /** `fp2sqr1271`. */
  method Fp2Sqr(a: F2, c: F2)
    requires F2elm(a) && c.re.Length == 2 && c.im.Length == 2 && c.re != c.im
    modifies c.re, c.im
    ensures F2elm(c)
    ensures Congruent(ValOf(c.re), old(ValOf(a.re)) * old(ValOf(a.re)) - old(ValOf(a.im)) * old(ValOf(a.im)))
    ensures Congruent(ValOf(c.im), 2 * (old(ValOf(a.re)) * old(ValOf(a.im))))
  {
    var t1, t2, t3 := new u64[2], new u64[2], new u64[2];
    ghost var a0, a1 := ValOf(a.re), ValOf(a.im);
    FpAdd(a.re, a.im, t1);
    FpSub(a.re, a.im, t2);
    FpMul(a.re, a.im, t3);
    FpMul(t1, t2, c.re);
    FpAdd(t3, t3, c.im);
    SquareReal(a0, a1, ValOf(t1), ValOf(t2), ValOf(c.re));
    ReducedCongruent(ValOf(c.im), ValOf(t3) + ValOf(t3));
    CongruentSub(ValOf(t3), a0 * a1, ValOf(t3), a0 * a1);
  }

  lemma {:induction false} SquareReal(a0: int, a1: int, t1: int, t2: int, c0: int)
    requires Reduced(t1, a0 + a1) && Reduced(t2, a0 - a1) && Congruent(c0, t1 * t2)
    ensures Congruent(c0, a0 * a0 - a1 * a1)
  {
    ReducedCongruent(t1, a0 + a1);
    ReducedCongruent(t2, a0 - a1);
    CongruentMul(t1, a0 + a1, t2, a0 - a1);
    assert (a0 + a1) * (a0 - a1) == a0 * a0 - a1 * a1;
  }
}
