/** 256-bit arithmetic modulo the order of the FourQ subgroup: the exact 4x4-limb product
    and Montgomery multiplication. */
module FourQOrder {
  import opened Limbs

  const B2: int := BASE * BASE
  const B3: int := BASE * BASE * BASE
  const B4: int := BASE * BASE * BASE * BASE

  function Val4(a0: u64, a1: u64, a2: u64, a3: u64): (v: int)
    ensures 0 <= v < B4
  {
    a0 + a1 * BASE + a2 * B2 + a3 * B3
  }

  ghost function ValAt(a: array<u64>, i: nat): int
    requires i + 4 <= a.Length
    reads a
  {
    Val4(a[i], a[i + 1], a[i + 2], a[i + 3])
  }

  function Wide(p: (u64, u64)): (v: int) {
    p.0 + p.1 * BASE
  }

  // ----- The exact product -----

  lemma Distribute(x: int, y0: int, y1: int, y2: int, y3: int)
    ensures x * (y0 + y1 * BASE + y2 * B2 + y3 * B3) == x * y0 + x * y1 * BASE + x * y2 * B2 + x * y3 * B3
  {
    assert x * (y1 * BASE) == x * y1 * BASE;
    assert x * (y2 * B2) == x * y2 * B2;
    assert x * (y3 * B3) == x * y3 * B3;
    assert x * (y0 + y1 * BASE + y2 * B2 + y3 * B3) == x * y0 + x * (y1 * BASE) + x * (y2 * B2) + x * (y3 * B3);
  }

  /** The first row: `a * b` as five limbs. */
  method FirstRow(a: u64, b0: u64, b1: u64, b2: u64, b3: u64) returns (c0: u64, c1: u64, c2: u64, c3: u64, c4: u64)
    ensures Val4(c0, c1, c2, c3) + c4 * B4 == a * Val4(b0, b1, b2, b3)
  {
    Distribute(a, b0, b1, b2, b3);
    var p := Umul(a, b0);
    c0 := p.0;
    var q := Umul(a, b1);
    var s := AddCarry(0, q.0, p.1);
    c1 := s.0;
    var u := s.1 + q.1;
    q := Umul(a, b2);
    s := AddCarry(0, q.0, u);
    c2 := s.0;
    u := s.1 + q.1;
    q := Umul(a, b3);
    s := AddCarry(0, q.0, u);
    c3 := s.0;
    c4 := s.1 + q.1;
  }

  /** Each later row: `a * b` added to four limbs of the accumulator; the fifth is new. */
  method NextRow(a: u64, b0: u64, b1: u64, b2: u64, b3: u64, c0: u64, c1: u64, c2: u64, c3: u64)
    returns (d0: u64, d1: u64, d2: u64, d3: u64, d4: u64)
    ensures Val4(d0, d1, d2, d3) + d4 * B4 == Val4(c0, c1, c2, c3) + a * Val4(b0, b1, b2, b3)
  {
    ProductBound(a, BASE - 1, b0, BASE - 1);
    ProductBound(a, BASE - 1, b1, BASE - 1);
    ProductBound(a, BASE - 1, b2, BASE - 1);
    ProductBound(a, BASE - 1, b3, BASE - 1);
    RowBound(a * b0, a * b1, a * b2, a * b3);
    d0, d1, d2, d3, d4 := AddProducts(Umul(a, b0), Umul(a, b1), Umul(a, b2), Umul(a, b3), c0, c1, c2, c3);
    Distribute(a, b0, b1, b2, b3);
  }

  /** The lower half of the carry chain of a row, on two double-limb products. */
  method AddLowProducts(p0: (u64, u64), p1: (u64, u64), c0: u64, c1: u64) returns (d0: u64, d1: u64, u: u64, carry: bit)
    requires p0.1 <= BASE - 2 && p1.1 <= BASE - 2
    ensures d0 + d1 * BASE + (u + carry) * B2 == c0 + c1 * BASE + Wide(p0) + Wide(p1) * BASE
  {
    var s := AddCarry(0, c0, p0.0);
    d0 := s.0;
    u := s.1 + p0.1;
    s := AddCarry(0, p1.0, u);
    var v := s.0;
    u := s.1 + p1.1;
    s := AddCarry(0, c1, v);
    d1, carry := s.0, s.1;
  }

  /** The upper half, with what comes up from the lower. */
  method AddHighProducts(p2: (u64, u64), p3: (u64, u64), c2: u64, c3: u64, low: u64, carry: bit)
    returns (d2: u64, d3: u64, top: nat)
    requires p2.1 <= BASE - 2 && p3.1 <= BASE - 2
    ensures d2 + d3 * BASE + top * B2 == c2 + c3 * BASE + low + carry + Wide(p2) + Wide(p3) * BASE
  {
    var s := AddCarry(carry, p2.0, low);
    var v := s.0;
    var u := s.1 + p2.1;
    s := AddCarry(0, c2, v);
    d2 := s.0;
    s := AddCarry(s.1, p3.0, u);
    v := s.0;
    var t := AddCarry(0, c3, v);
    d3 := t.0;
    top := s.1 + p3.1 + t.1;
  }

  /** The carry chain of a row, on the four double-limb products. */
  method AddProducts(p0: (u64, u64), p1: (u64, u64), p2: (u64, u64), p3: (u64, u64), c0: u64, c1: u64, c2: u64, c3: u64)
    returns (d0: u64, d1: u64, d2: u64, d3: u64, d4: u64)
    requires p0.1 <= BASE - 2 && p1.1 <= BASE - 2 && p2.1 <= BASE - 2 && p3.1 <= BASE - 2
    requires Wide(p0) + Wide(p1) * BASE + Wide(p2) * B2 + Wide(p3) * B3 <= (BASE - 1) * (B4 - 1)
    ensures Val4(d0, d1, d2, d3) + d4 * B4
         == Val4(c0, c1, c2, c3) + Wide(p0) + Wide(p1) * BASE + Wide(p2) * B2 + Wide(p3) * B3
  {
    var u, carry, top;
    d0, d1, u, carry := AddLowProducts(p0, p1, c0, c1);
    d2, d3, top := AddHighProducts(p2, p3, c2, c3, u, carry);
    RowTop(Val4(d0, d1, d2, d3), top, Val4(c0, c1, c2, c3), Wide(p0) + Wide(p1) * BASE + Wide(p2) * B2 + Wide(p3) * B3);
    d4 := top;
  }

  /** What leaves a row is a limb. */
  lemma RowTop(d: int, top: nat, c: int, p: int)
    requires 0 <= d < B4 && 0 <= c < B4 && p <= (BASE - 1) * (B4 - 1) && d + top * B4 == c + p
    ensures top < BASE
  {
  }

  /** Four products of limbs: a row cannot overflow its five limbs. */
  lemma RowBound(p0: int, p1: int, p2: int, p3: int)
    requires 0 <= p0 <= (BASE - 1) * (BASE - 1) && 0 <= p1 <= (BASE - 1) * (BASE - 1)
    requires 0 <= p2 <= (BASE - 1) * (BASE - 1) && 0 <= p3 <= (BASE - 1) * (BASE - 1)
    ensures 0 <= p0 + p1 * BASE + p2 * B2 + p3 * B3 <= (BASE - 1) * (B4 - 1)
  {
  }

  /** The product by rows, each row shifted by one limb. */
  method MultiplyLimbs(a0: u64, a1: u64, a2: u64, a3: u64, b0: u64, b1: u64, b2: u64, b3: u64)
    returns (c0: u64, c1: u64, c2: u64, c3: u64, c4: u64, c5: u64, c6: u64, c7: u64)
    ensures Val4(c0, c1, c2, c3) + Val4(c4, c5, c6, c7) * B4 == Val4(a0, a1, a2, a3) * Val4(b0, b1, b2, b3)
  {
    ghost var y := Val4(b0, b1, b2, b3);
    Distribute(y, a0, a1, a2, a3);
    ghost var r0, r1, r2, r3 := a0 * y, a1 * y, a2 * y, a3 * y;
    c0, c1, c2, c3, c4 := FirstRow(a0, b0, b1, b2, b3);
    assert c0 + Val4(c1, c2, c3, c4) * BASE == r0;
    c1, c2, c3, c4, c5 := NextRow(a1, b0, b1, b2, b3, c1, c2, c3, c4);
    assert c0 + c1 * BASE + Val4(c2, c3, c4, c5) * B2 == r0 + r1 * BASE;
    c2, c3, c4, c5, c6 := NextRow(a2, b0, b1, b2, b3, c2, c3, c4, c5);
    assert c0 + c1 * BASE + c2 * B2 + Val4(c3, c4, c5, c6) * B3 == r0 + r1 * BASE + r2 * B2;
    c3, c4, c5, c6, c7 := NextRow(a3, b0, b1, b2, b3, c3, c4, c5, c6);
    assert Val4(c0, c1, c2, c3) + Val4(c4, c5, c6, c7) * B4 == r0 + r1 * BASE + r2 * B2 + r3 * B3;
    assert y * Val4(a0, a1, a2, a3) == Val4(a0, a1, a2, a3) * y;
  }

  /** `multiply`: the exact 512-bit product. */
  method Multiply(a: array<u64>, b: array<u64>, c: array<u64>)
    requires a.Length == 4 && b.Length == 4 && c.Length == 8 && c != a && c != b
    modifies c
    ensures ValAt(c, 0) + ValAt(c, 4) * B4 == ValAt(a, 0) * ValAt(b, 0)
  {
    var c0, c1, c2, c3, c4, c5, c6, c7 := MultiplyLimbs(a[0], a[1], a[2], a[3], b[0], b[1], b[2], b[3]);
    c[0], c[1], c[2], c[3], c[4], c[5], c[6], c[7] := c0, c1, c2, c3, c4, c5, c6, c7;
  }

  // ----- Montgomery multiplication -----

  const R0: u64 := 0x2FB2540EC7768CE7
  const R1: u64 := 0xDFBD004DFE0F7999
  const R2: u64 := 0xF05397829CBC14E5
  const R3: u64 := 0x0029CBC14E5E0A72
  /** The order r of the prime subgroup. */
  const ORDER: int := R0 + R1 * BASE + R2 * B2 + R3 * B3

  const S0: u64 := 0xE12FE5F079BC3929
  const S1: u64 := 0xD75E78B8D1FCDCF3
  const S2: u64 := 0xBCE409ED76B5DB21
  const S3: u64 := 0xF32702FDAFC1C074
  /** The constant r' with r' * r = -1 modulo 2^256. */
  const RPRIME: int := S0 + S1 * BASE + S2 * B2 + S3 * B3

  /** 2^-256 modulo r. */
  const INVERSE: int := 0x27b2c704d8c6d10dd5b24ac38118775d78fa35b9b3d9c001c9fa340fc44477

  lemma MontgomeryConstants()
    ensures INVERSE * B4 == RPRIME * ORDER + 1
    ensures 0 < ORDER < 0x40_0000_0000_0000 * B3
  {
  }

  lemma SplitRprime(p: int)
    ensures p * RPRIME == p * S0 + p * S1 * BASE + p * S2 * B2 + p * S3 * B3
  {
    Distribute(p, S0, S1, S2, S3);
  }

  /** The contribution of the lowest limb to the quotient. */
  method QuotientRow0(p: u64) returns (q0: u64, q1: u64, q2: u64, q3: u64, ghost k: int)
    ensures Val4(q0, q1, q2, q3) + k * B4 == p * RPRIME
  {
    q0, q1, q2, q3, k := FirstRow(p, S0, S1, S2, S3);
  }

  /** The carry chain of the second limb, on its three double-limb products. */
  method QuotientChain(x: (u64, u64), y: (u64, u64), z: (u64, u64), c1: u64, c2: u64, c3: u64)
    returns (q1: u64, q2: u64, q3: u64, ghost k: int)
    requires x.1 <= BASE - 2 && y.1 <= BASE - 2
    ensures q1 + q2 * BASE + q3 * B2 + k * B3 == c1 + c2 * BASE + c3 * B2 + Wide(x) + Wide(y) * BASE + Wide(z) * B2
  {
    var s := AddCarry(0, c1, x.0);
    q1 := s.0;
    var u := s.1 + x.1;
    s := AddCarry(0, y.0, u);
    var v := s.0;
    u := s.1 + y.1;
    s := AddCarry(0, c2, v);
    q2 := s.0;
    s := AddCarry(s.1, z.0, u);
    var t := AddCarry(0, c3, s.0);
    q3 := t.0;
    k := s.1 + t.1 + z.1;
  }

  /** The second limb, one limb up; what leaves the fourth limb is dropped. */
  method QuotientRow1(p: u64, c1: u64, c2: u64, c3: u64) returns (q1: u64, q2: u64, q3: u64, ghost k: int)
    ensures q1 + q2 * BASE + q3 * B2 + k * B3 == c1 + c2 * BASE + c3 * B2 + p * RPRIME
  {
    SplitRprime(p);
    q1, q2, q3, k := QuotientChain(Umul(p, S0), Umul(p, S1), Umul(p, S2), c1, c2, c3);
    k := k + p * S3;
  }

  /** The third limb. */
  method QuotientRow2(p: u64, c2: u64, c3: u64) returns (q2: u64, q3: u64, ghost k: int)
    ensures q2 + q3 * BASE + k * B2 == c2 + c3 * BASE + p * RPRIME
  {
    SplitRprime(p);
    var x := Umul(p, S0);
    var s := AddCarry(0, c2, x.0);
    q2 := s.0;
    var u := s.1 + x.1;
    var y := Umul(p, S1);
    s := AddCarry(0, y.0, u);
    var t := AddCarry(0, c3, s.0);
    q3 := t.0;
    k := s.1 + t.1 + y.1 + p * S2 + p * S3 * BASE;
  }

  /** The fourth limb. */
  method QuotientRow3(p: u64, c3: u64) returns (q3: u64, ghost k: int)
    ensures q3 + k * BASE == c3 + p * RPRIME
  {
    SplitRprime(p);
    var x := Umul(p, S0);
    var s := AddCarry(0, c3, x.0);
    q3 := s.0;
    k := s.1 + x.1 + p * S1 + p * S2 * BASE + p * S3 * B2;
  }

  /** The upper two limbs. */
  method QuotientTop(p2: u64, p3: u64, c2: u64, c3: u64) returns (q2: u64, q3: u64, ghost k: int)
    ensures q2 + q3 * BASE + k * B2 == c2 + c3 * BASE + p2 * RPRIME + p3 * RPRIME * BASE
  {
    ghost var k2, k3: int;
    q2, q3, k2 := QuotientRow2(p2, c2, c3);
    q3, k3 := QuotientRow3(p3, q3);
    k := k2 + k3;
  }

  /** The lower two. */
  method QuotientLow(p0: u64, p1: u64) returns (q0: u64, q1: u64, q2: u64, q3: u64, ghost k: int)
    ensures Val4(q0, q1, q2, q3) + k * B4 == p0 * RPRIME + p1 * RPRIME * BASE
  {
    ghost var k0, k1: int;
    q0, q1, q2, q3, k0 := QuotientRow0(p0);
    q1, q2, q3, k1 := QuotientRow1(p1, q1, q2, q3);
    k := k0 + k1;
  }

  /** The quotient `Q = (P mod 2^256) * r' mod 2^256`. */
  method Quotient(p0: u64, p1: u64, p2: u64, p3: u64) returns (q0: u64, q1: u64, q2: u64, q3: u64, ghost k: int)
    ensures Val4(q0, q1, q2, q3) + k * B4 == Val4(p0, p1, p2, p3) * RPRIME
  {
    ghost var k0, k1: int;
    q0, q1, q2, q3, k0 := QuotientLow(p0, p1);
    q2, q3, k1 := QuotientTop(p2, p3, q2, q3);
    k := k0 + k1;
  }

  /** Adding `Q * r` clears the low half exactly. */
  lemma LowHalfVanishes(low: int, q: int, k: int)
    requires q + k * B4 == low * RPRIME
    ensures low + q * ORDER == (low * INVERSE - k * ORDER) * B4
  {
    MontgomeryConstants();
  }

  /** The 512-bit sum `t += p`, with the carry out. */
  method AddWide(p: array<u64>, t: array<u64>) returns (carry: bit)
    requires p.Length == 8 && t.Length == 8 && p != t
    modifies t
    ensures ValAt(t, 0) + ValAt(t, 4) * B4 + carry * B4 * B4
         == old(ValAt(t, 0) + ValAt(t, 4) * B4) + ValAt(p, 0) + ValAt(p, 4) * B4
  {
    var lo := AddHalf(0, p, t, 0);
    assert ValAt(t, 4) == old(ValAt(t, 4));
    carry := AddHalf(lo, p, t, 4);
  }

  method AddHalf(c: bit, p: array<u64>, t: array<u64>, i: nat) returns (carry: bit)
    requires i + 4 <= p.Length && i + 4 <= t.Length && p != t
    modifies t
    ensures ValAt(t, i) + carry * B4 == old(ValAt(t, i)) + ValAt(p, i) + c
    ensures forall j: nat :: j < t.Length && !(i <= j < i + 4) ==> t[j] == old(t[j])
  {
    var s0, s1, s2, s3: u64;
    s0, s1, s2, s3, carry := AddLimbs(c, p[i], p[i + 1], p[i + 2], p[i + 3], t[i], t[i + 1], t[i + 2], t[i + 3]);
    t[i], t[i + 1], t[i + 2], t[i + 3] := s0, s1, s2, s3;
  }

  method AddLimbs(c: bit, p0: u64, p1: u64, p2: u64, p3: u64, t0: u64, t1: u64, t2: u64, t3: u64)
    returns (m0: u64, m1: u64, m2: u64, m3: u64, carry: bit)
    ensures Val4(m0, m1, m2, m3) + carry * B4 == Val4(p0, p1, p2, p3) + Val4(t0, t1, t2, t3) + c
  {
    var s0 := AddCarry(c, p0, t0);
    var s1 := AddCarry(s0.1, p1, t1);
    var s2 := AddCarry(s1.1, p2, t2);
    var s3 := AddCarry(s2.1, p3, t3);
    m0, m1, m2, m3, carry := s0.0, s1.0, s2.0, s3.0, s3.1;
  }

  /** `mc = t - r`, with the borrow out. */
  method SubOrder(t0: u64, t1: u64, t2: u64, t3: u64) returns (m0: u64, m1: u64, m2: u64, m3: u64, borrow: bit)
    ensures Val4(m0, m1, m2, m3) - borrow * B4 == Val4(t0, t1, t2, t3) - ORDER
  {
    var s0 := SubBorrow(0, t0, R0);
    var s1 := SubBorrow(s0.1, t1, R1);
    var s2 := SubBorrow(s1.1, t2, R2);
    var s3 := SubBorrow(s2.1, t3, R3);
    m0, m1, m2, m3, borrow := s0.0, s1.0, s2.0, s3.0, s3.1;
  }

  method AddOrder(t0: u64, t1: u64, t2: u64, t3: u64) returns (m0: u64, m1: u64, m2: u64, m3: u64, carry: bit)
    ensures Val4(m0, m1, m2, m3) + carry * B4 == Val4(t0, t1, t2, t3) + ORDER
  {
    m0, m1, m2, m3, carry := AddLimbs(0, t0, t1, t2, t3, R0, R1, R2, R3);
  }

  /** The last step: one conditional subtraction of the order. */
  method ReduceOnce(carry: bit, t0: u64, t1: u64, t2: u64, t3: u64) returns (m0: u64, m1: u64, m2: u64, m3: u64)
    requires carry == 0 && Val4(t0, t1, t2, t3) < 2 * ORDER
    ensures var t := Val4(t0, t1, t2, t3); Val4(m0, m1, m2, m3) == if t >= ORDER then t - ORDER else t
  {
    var borrow: bit;
    m0, m1, m2, m3, borrow := SubOrder(t0, t1, t2, t3);
    if carry != borrow {
      var c: bit;
      m0, m1, m2, m3, c := AddOrder(m0, m1, m2, m3);
    }
  }

  /** A value below r that is `x` plus a multiple of r, divided by 2^256, is `x * 2^-256` modulo r. */
  lemma MontgomeryValue(v: int, x: int, j: int)
    requires 0 <= v < ORDER && v * B4 == x + j * ORDER
    ensures v == (x * INVERSE) % ORDER
  {
    MontgomeryConstants();
    var m := v * RPRIME - j * INVERSE;
    assert x * INVERSE == v + m * ORDER;
    ModUnique(x * INVERSE, v, m);
  }

  lemma ModUnique(y: int, v: int, m: int)
    requires 0 <= v < ORDER && y == v + m * ORDER
    ensures y % ORDER == v
  {
  }

  /** `P = ma * mb`, without a multiplication when `mb` is one. */
  method Product(ma: array<u64>, mb: array<u64>) returns (p: array<u64>)
    requires ma.Length == 4 && mb.Length == 4
    ensures fresh(p) && p.Length == 8 && ValAt(p, 0) + ValAt(p, 4) * B4 == ValAt(ma, 0) * ValAt(mb, 0)
  {
    p := new u64[8];
    if mb[0] == 1 && mb[1] == 0 && mb[2] == 0 && mb[3] == 0 {
      p[0], p[1], p[2], p[3] := ma[0], ma[1], ma[2], ma[3];
      p[4], p[5], p[6], p[7] := 0, 0, 0, 0;
      assert ValAt(mb, 0) == 1 && ValAt(p, 0) == ValAt(ma, 0) && ValAt(p, 4) == 0;
    } else {
      Multiply(ma, mb, p);
    }
  }

  /** The quotient times the order, as eight limbs. */
  method TimesOrder(p: array<u64>) returns (temp: array<u64>, ghost q: int, ghost k: int)
    requires p.Length == 8
    ensures fresh(temp) && temp.Length == 8 && 0 <= q < B4 && q + k * B4 == ValAt(p, 0) * RPRIME
    ensures ValAt(temp, 0) + ValAt(temp, 4) * B4 == q * ORDER
  {
    var q0, q1, q2, q3: u64;
    q0, q1, q2, q3, k := Quotient(p[0], p[1], p[2], p[3]);
    q := Val4(q0, q1, q2, q3);
    temp := new u64[8];
    var t0, t1, t2, t3, t4, t5, t6, t7 := MultiplyLimbs(q0, q1, q2, q3, R0, R1, R2, R3);
    temp[0], temp[1], temp[2], temp[3] := t0, t1, t2, t3;
    temp[4], temp[5], temp[6], temp[7] := t4, t5, t6, t7;
  }

  /** `temp = P + Q * r`: a multiple of 2^256, less than 2 * r * 2^256. */
  method AddQuotient(p: array<u64>, ghost x: int) returns (temp: array<u64>, carry: bit, ghost q: int)
    requires p.Length == 8 && x == ValAt(p, 0) + ValAt(p, 4) * B4 < ORDER * B4
    ensures fresh(temp) && temp.Length == 8 && carry == 0
    ensures ValAt(temp, 4) * B4 == x + q * ORDER && ValAt(temp, 4) < 2 * ORDER
  {
    ghost var k: int;
    ghost var low := ValAt(p, 0);
    temp, q, k := TimesOrder(p);
    LowHalfVanishes(low, q, k);
    carry := AddWide(p, temp);
    TopHalf(ValAt(temp, 0), ValAt(temp, 4), carry, x, q, ValAt(p, 4) + low * INVERSE - k * ORDER);
  }

  /** The low half of a multiple of 2^256 is zero, and nothing carries out of the top. */
  lemma TopHalf(lo: int, hi: int, carry: bit, x: int, q: int, m: int)
    requires 0 <= lo < B4 && 0 <= hi < B4 && 0 <= q < B4 && x < ORDER * B4
    requires lo + hi * B4 + carry * B4 * B4 == x + q * ORDER == m * B4
    ensures lo == 0 && carry == 0 && hi * B4 == x + q * ORDER && hi < 2 * ORDER
  {
    MontgomeryConstants();
  }

  /** `Montgomery_multiply_mod_order`: `ma * mb * 2^-256 mod r`, fully reduced. The output may be an input. */
  method MontgomeryMultiply(ma: array<u64>, mb: array<u64>, mc: array<u64>)
    requires ma.Length == 4 && mb.Length == 4 && mc.Length == 4 && ValAt(mb, 0) < ORDER
    modifies mc
    ensures ValAt(mc, 0) == (old(ValAt(ma, 0)) * old(ValAt(mb, 0)) * INVERSE) % ORDER
  {
    ghost var x := ValAt(ma, 0) * ValAt(mb, 0);
    FactorBound(ValAt(ma, 0), ValAt(mb, 0));
    var p := Product(ma, mb);
    var temp, carry;
    ghost var q: int;
    temp, carry, q := AddQuotient(p, x);
    ghost var t := ValAt(temp, 4);
    var m0, m1, m2, m3 := ReduceOnce(carry, temp[4], temp[5], temp[6], temp[7]);
    MontgomeryValue(Val4(m0, m1, m2, m3), x, if t >= ORDER then q - B4 else q);
    mc[0], mc[1], mc[2], mc[3] := m0, m1, m2, m3;
  }

  lemma {:induction false} FactorBound(a: int, b: int)
    requires 0 <= a < B4 && 0 <= b < ORDER
    ensures 0 <= a * b < ORDER * B4
  {
    ProductBound(a, B4 - 1, b, ORDER - 1);
  }

  // ----- Reduction of a scalar by two Montgomery products -----

  /** `Montgomery_Rprime`: 2^512 modulo r. */
  const M0: u64 := 0xC81DB8795FF3D621
  const M1: u64 := 0x173EA5AAEA6B387D
  const M2: u64 := 0x3D01B7C72136F61C
  const M3: u64 := 0x0006A5F16AC8F9D3
  const RSQUARE: int := M0 + M1 * BASE + M2 * B2 + M3 * B3

  /** 2^256 modulo r. */
  const UNIT: int := 0x59a5e224be13735bbdbbd257a49e0f920
  const QUOT1: int := 0x6508784067ca5cf27868286d31a5cde8da34bec1e4b1e9a8ba31803d24431
  const QUOT2: int := 0x55261efa7646724e8ec13670fe798e049

  lemma ReductionLiterals(r: int, m: int, inv: int, unit: int, q1: int, q2: int)
    requires r == 0x29cbc14e5e0a72f05397829cbc14e5dfbd004dfe0f79992fb2540ec7768ce7
    requires m == 0x6a5f16ac8f9d33d01b7c72136f61c173ea5aaea6b387dc81db8795ff3d621
    requires inv == 0x27b2c704d8c6d10dd5b24ac38118775d78fa35b9b3d9c001c9fa340fc44477
    requires unit == 0x59a5e224be13735bbdbbd257a49e0f920
    requires q1 == 0x6508784067ca5cf27868286d31a5cde8da34bec1e4b1e9a8ba31803d24431
    requires q2 == 0x55261efa7646724e8ec13670fe798e049
    ensures m * inv == unit + q1 * r && unit * inv == 1 + q2 * r
  {
  }

  lemma OrderLiterals()
    ensures ORDER == 0x29cbc14e5e0a72f05397829cbc14e5dfbd004dfe0f79992fb2540ec7768ce7
    ensures RSQUARE == 0x6a5f16ac8f9d33d01b7c72136f61c173ea5aaea6b387dc81db8795ff3d621
  {
  }

  /** Multiplying by `Montgomery_Rprime` and then by one is reduction modulo r. */
  lemma {:induction false} TwoProductsReduce(k: int)
    ensures (((k * RSQUARE * INVERSE) % ORDER) * 1 * INVERSE) % ORDER == k % ORDER
  {
    OrderLiterals();
    ReductionLiterals(ORDER, RSQUARE, INVERSE, UNIT, QUOT1, QUOT2);
    var y := k * RSQUARE * INVERSE;
    var j := ReduceTwice(k, ORDER, RSQUARE, INVERSE, UNIT, QUOT1, QUOT2, y % ORDER, y / ORDER);
    ModShift(k, j);
  }

  lemma ReduceTwice(k: int, r: int, m: int, inv: int, unit: int, q1: int, q2: int, x: int, j: int) returns (t: int)
    requires m * inv == unit + q1 * r && unit * inv == 1 + q2 * r && k * m * inv == x + j * r
    ensures x * inv == k + t * r
  {
    var u := k * q1 - j;
    assert k * m * inv == k * (m * inv) == k * unit + k * q1 * r;
    assert x == k * unit + u * r;
    assert x * inv == k * (unit * inv) + u * r * inv;
    t := k * q2 + u * inv;
    assert k * (unit * inv) == k + k * q2 * r;
    assert u * r * inv == u * inv * r;
  }

  lemma ModShift(k: int, m: int)
    ensures (k + m * ORDER) % ORDER == k % ORDER
  {
  }

  /** The first two lines of `ecc_mul_fixed`: `k mod r`. */
  method ReduceScalar(k: array<u64>, scalar: array<u64>)
    requires k.Length == 4 && scalar.Length == 4
    modifies scalar
    ensures ValAt(scalar, 0) == old(ValAt(k, 0)) % ORDER
  {
    var rprime, one := new u64[4], new u64[4];
    rprime[0], rprime[1], rprime[2], rprime[3] := M0, M1, M2, M3;
    one[0], one[1], one[2], one[3] := 1, 0, 0, 0;
    TwoProductsReduce(ValAt(k, 0));
    assert ValAt(one, 0) == 1 && ValAt(rprime, 0) == RSQUARE;
    MontgomeryMultiply(k, rprime, scalar);
    MontgomeryMultiply(scalar, one, scalar);
  }
}
