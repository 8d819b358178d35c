/** The four-dimensional decomposition of scalars on FourQ: the truncated products, the sub-scalars modulo
    2^64 and their parity step, against the lattice they stand for. */
module FourQDecompose {
  import opened Limbs
  import opened FourQOrder
  import opened GroupSums

  // ----- The fifth limb of a product -----

  lemma HighProduct(a: u64, b: u64)
    ensures Umul(a, b).1 == BASE - 2 ==> Umul(a, b).0 <= 1
  {
    ProductBound(a, BASE - 1, b, BASE - 1);
  }

  /** The two lowest columns of a product. */
  method LowColumns(s0: u64, s1: u64, c0: u64, c1: u64) returns (t3: u64, t2: bit, ghost lo: u64, ghost t0: u64)
    ensures lo + t0 * BASE + t3 * B2 + t2 * B3 == s0 * c0 + (s1 * c0 + s0 * c1) * BASE
    ensures t3 + t2 * BASE <= 2 * BASE - 2
  {
    var x00 := Umul(s0, c0);
    var x10 := Umul(s1, c0);
    var a := AddCarry(0, x00.1, x10.0);
    var t1 := AddCarry(a.1, x10.1, 0).0;
    var x01 := Umul(s0, c1);
    var b := AddCarry(0, a.0, x01.0);
    var d := AddCarry(b.1, t1, x01.1);
    t3, t2, lo, t0 := d.0, d.1, x00.0, b.0;
  }

  /** Where the code drops this carry there is none. */
  lemma NoCarry(t3: u64, t2: bit, s2: u64, c0: u64)
    requires t3 + t2 * BASE <= 2 * BASE - 2
    ensures var x := Umul(s2, c0); AddCarry(AddCarry(0, t3, x.0).1, t2, x.1).1 == 0
  {
    HighProduct(s2, c0);
  }

  /** The first product of the third column. */
  method ThirdColumnFirst(t3: u64, t2: bit, s2: u64, c0: u64) returns (t4: u64, t5: u64)
    requires t3 + t2 * BASE <= 2 * BASE - 2
    ensures t4 + t5 * BASE == t3 + t2 * BASE + s2 * c0
  {
    var x20 := Umul(s2, c0);
    NoCarry(t3, t2, s2, c0);
    var a := AddCarry(0, t3, x20.0);
    t4, t5 := a.0, AddCarry(a.1, t2, x20.1).0;
  }

  /** A product added to two limbs. */
  method AddProduct(t0: u64, t1: u64, s: u64, c: u64) returns (r0: u64, r1: u64, r2: bit)
    ensures r0 + r1 * BASE + r2 * B2 == t0 + t1 * BASE + s * c
  {
    var x := Umul(s, c);
    var a := AddCarry(0, t0, x.0);
    var b := AddCarry(a.1, t1, x.1);
    r0, r1, r2 := a.0, b.0, b.1;
  }

  /** The third column. */
  method ThirdColumn(t3: u64, t2: bit, s0: u64, s1: u64, s2: u64, c0: u64, c1: u64, c2: u64)
    returns (t10: u64, t69: nat, ghost t0: u64)
    requires t3 + t2 * BASE <= 2 * BASE - 2
    ensures t0 + t10 * BASE + t69 * B2 == t3 + t2 * BASE + s2 * c0 + s0 * c2 + s1 * c1 && t69 <= 2
  {
    var t4, t5 := ThirdColumnFirst(t3, t2, s2, c0);
    var t7, t8, t6 := AddProduct(t4, t5, s0, c2);
    var d, t9;
    d, t10, t9 := AddProduct(t7, t8, s1, c1);
    t69, t0 := (t6 as int) + t9, d;
  }

  /** The fourth column, and the fifth modulo 2^64. */
  method HighColumns(t10: u64, t69: nat, s0: u64, s1: u64, s2: u64, s3: u64, c0: u64, c1: u64, c2: u64, c3: u64)
    returns (r: u64, ghost t0: u64, ghost over: int)
    requires t69 <= 2
    ensures t0 + (r + over * BASE) * BASE
         == t10 + t69 * BASE + s0 * c3 + s3 * c0 + s1 * c2 + s2 * c1 + (s1 * c3 + s2 * c2 + s3 * c1) * BASE
  {
    var x03 := Umul(s0, c3);
    var a := AddCarry(0, t10, x03.0);
    var u12 := AddCarry(a.1, t69, x03.1);
    var x30 := Umul(s3, c0);
    var b := AddCarry(0, a.0, x30.0);
    var u14 := AddCarry(b.1, u12.0, x30.1);
    var x12 := Umul(s1, c2);
    var d := AddCarry(0, b.0, x12.0);
    var u16 := AddCarry(d.1, u14.0, x12.1);
    var x21 := Umul(s2, c1);
    var e := AddCarry(0, d.0, x21.0);
    var sum := e.1 + u16.0 + x21.1 + s1 * c3 + s2 * c2 + s3 * c1;
    r, t0, over := Wrap(sum), e.0, sum / BASE + u12.1 + u14.1 + u16.1;
  }

  /** All products of limbs, by columns. */
  lemma ProductColumns(s0: int, s1: int, s2: int, s3: int, c0: int, c1: int, c2: int, c3: int)
    ensures (s0 + s1 * BASE + s2 * B2 + s3 * B3) * (c0 + c1 * BASE + c2 * B2 + c3 * B3)
         == s0 * c0 + (s1 * c0 + s0 * c1) * BASE + (s2 * c0 + s0 * c2 + s1 * c1) * B2
            + (s0 * c3 + s3 * c0 + s1 * c2 + s2 * c1) * B3
            + (s1 * c3 + s2 * c2 + s3 * c1 + (s2 * c3 + s3 * c2) * BASE + s3 * c3 * B2) * B4
  {
    var c := c0 + c1 * BASE + c2 * B2 + c3 * B3;
    Distribute(c, s0, s1, s2, s3);
    Distribute(s0, c0, c1, c2, c3);
    Distribute(s1, c0, c1, c2, c3);
    Distribute(s2, c0, c1, c2, c3);
    Distribute(s3, c0, c1, c2, c3);
    ColumnSum(c * s0, c * s1, c * s2, c * s3, s0 * c0, s0 * c1, s0 * c2, s0 * c3, s1 * c0, s1 * c1, s1 * c2, s1 * c3,
              s2 * c0, s2 * c1, s2 * c2, s2 * c3, s3 * c0, s3 * c1, s3 * c2, s3 * c3);
  }

  lemma ColumnSum(y0: int, y1: int, y2: int, y3: int, p00: int, p01: int, p02: int, p03: int, p10: int, p11: int,
                  p12: int, p13: int, p20: int, p21: int, p22: int, p23: int, p30: int, p31: int, p32: int, p33: int)
    requires y0 == p00 + p01 * BASE + p02 * B2 + p03 * B3 && y1 == p10 + p11 * BASE + p12 * B2 + p13 * B3
    requires y2 == p20 + p21 * BASE + p22 * B2 + p23 * B3 && y3 == p30 + p31 * BASE + p32 * B2 + p33 * B3
    ensures y0 + y1 * BASE + y2 * B2 + y3 * B3
         == p00 + (p10 + p01) * BASE + (p20 + p02 + p11) * B2 + (p03 + p30 + p12 + p21) * B3
            + (p13 + p22 + p31 + (p23 + p32) * BASE + p33 * B2) * B4
  {
  }

  lemma FifthLimb(x: int, low: int, r: u64, over: int)
    requires 0 <= low < B4 && x == low + (r + over * BASE) * B4
    ensures x / B4 % BASE == r
  {
    var y := r + over * BASE;
    assert x / B4 == y;
    assert y % BASE == r;
  }

  /** The columns put together: `p0` to `p4` are the sums of products of a column, `rest` what lies above. */
  lemma {:induction false} Truncated(x: int, lo: u64, d1: u64, d2: u64, d3: u64, r: u64, over: int, t3: int, t2: int,
                                     t10: int, t69: int, p0: int, p1: int, p2: int, p3: int, p4: int, rest: int)
    requires lo + d1 * BASE + t3 * B2 + t2 * B3 == p0 + p1 * BASE
    requires d2 + t10 * BASE + t69 * B2 == t3 + t2 * BASE + p2
    requires d3 + (r + over * BASE) * BASE == t10 + t69 * BASE + p3 + p4 * BASE
    requires x == p0 + p1 * BASE + p2 * B2 + p3 * B3 + (p4 + rest * BASE) * B4
    ensures x / B4 % BASE == r
  {
    assert x == Val4(lo, d1, d2, d3) + (r + (over + rest) * BASE) * B4;
    FifthLimb(x, Val4(lo, d1, d2, d3), r, over + rest);
  }

  /** `mul_truncate`: the product of two 256-bit numbers divided by 2^256, modulo 2^64. */
  method MulTruncate(s0: u64, s1: u64, s2: u64, s3: u64, c0: u64, c1: u64, c2: u64, c3: u64) returns (r: u64)
    ensures r == Val4(s0, s1, s2, s3) * Val4(c0, c1, c2, c3) / B4 % BASE
  {
    ghost var lo, d1, d2, d3: u64;
    ghost var over: int;
    var t3, t2, t10, t69;
    t3, t2, lo, d1 := LowColumns(s0, s1, c0, c1);
    t10, t69, d2 := ThirdColumn(t3, t2, s0, s1, s2, c0, c1, c2);
    r, d3, over := HighColumns(t10, t69, s0, s1, s2, s3, c0, c1, c2, c3);
    ProductColumns(s0, s1, s2, s3, c0, c1, c2, c3);
    Truncated(Val4(s0, s1, s2, s3) * Val4(c0, c1, c2, c3), lo, d1, d2, d3, r, over, t3, t2, t10, t69,
              s0 * c0, s1 * c0 + s0 * c1, s2 * c0 + s0 * c2 + s1 * c1, s0 * c3 + s3 * c0 + s1 * c2 + s2 * c1,
              s1 * c3 + s2 * c2 + s3 * c1, s2 * c3 + s3 * c2 + s3 * c3 * BASE);
  }

  // ----- The lattice -----

  const L1_0: u64 := 0x259686E09D1A7D4F
  const L1_1: u64 := 0xF75682ACE6A6BD66
  const L1_2: u64 := 0xFC5BB5C5EA2BE5DF
  const L1_3: u64 := 0x07
  const L2_0: u64 := 0xD1BA1D84DD627AFB
  const L2_1: u64 := 0x2BD235580F468D8D
  const L2_2: u64 := 0x8FD4B04CAA6C0F8A
  const L2_3: u64 := 0x03
  const L3_0: u64 := 0x9B291A33678C203C
  const L3_1: u64 := 0xC42BD6C965DCA902
  const L3_2: u64 := 0xD038BF8D0BFFBAF6
  const L3_3: u64 := 0x00
  const L4_0: u64 := 0x12E5666B77E7FDC0
  const L4_1: u64 := 0x81CBDC3714983D82
  const L4_2: u64 := 0x1B073877A22D8410
  const L4_3: u64 := 0x03

  const ELL1: int := L1_0 + L1_1 * BASE + L1_2 * B2 + L1_3 * B3
  const ELL2: int := L2_0 + L2_1 * BASE + L2_2 * B2 + L2_3 * B3
  const ELL3: int := L3_0 + L3_1 * BASE + L3_2 * B2 + L3_3 * B3
  const ELL4: int := L4_0 + L4_1 * BASE + L4_2 * B2 + L4_3 * B3

  /** The constants of the sub-scalars, modulo 2^64. */
  const B11: u64 := 0xF6F900D81F5F5E6A
  const B12: u64 := 0x1363E862C22A2DA0
  const B13: u64 := 0xF8BD9FCE1337FCF1
  const B14: u64 := 0x084F739986B9E651
  const B21: u64 := 0xE2B6A4157B033D2C
  const B22: u64 := 0x0000000000000001
  const B23: u64 := 0xFFFFFFFFFFFFFFFF
  const B24: u64 := 0xDA243A43722E9830
  const B31: u64 := 0xE85452E2DCE0FCFE
  const B32: u64 := 0xFD3BDEE51C7725AF
  const B33: u64 := 0x2E4D21C98927C49F
  const B34: u64 := 0xF56190BB3FD13269
  const B41: u64 := 0xEC91CBF56EF737C1
  const B42: u64 := 0xCEDD20D23C1F00CE
  const B43: u64 := 0x068A49F02AA8A9B5
  const B44: u64 := 0x18D5087896DE0AEA
  const C1: u64 := 0x72482C5251A4559C
  const C2: u64 := 0x59F95B0ADD276F6C
  const C3: u64 := 0x7DD2D17C4625FA78
  const C4: u64 := 0x6BC57DEF56CE8877

  /** The basis they stand for: minus the signed values. */
  const V11: int := BASE - B11
  const V12: int := 0 - B12
  const V13: int := BASE - B13
  const V14: int := 0 - B14
  const V21: int := BASE - B21
  const V22: int := 0 - B22
  const V23: int := BASE - B23
  const V24: int := BASE - B24
  const V31: int := BASE - B31
  const V32: int := BASE - B32
  const V33: int := 0 - B33
  const V34: int := BASE - B34
  const V41: int := BASE - B41
  const V42: int := BASE - B42
  const V43: int := 0 - B43
  const V44: int := 0 - B44

  /** The coordinates of (ORDER, 0, 0, 0) in that basis. */
  const A1: int := 0x14DC5D488CD6A6EAC67135940CCD74DEA06602CEA4D40BF
  const A2: int := 0x94DECE6A8EC346749970AFE494C799B5DAE57581019541
  const A3: int := 0x21FED0E801F581CA3F5FF94573E5550F5ADB35A1432677
  const A4: int := 0x81CCEF18C1A963EDCC0C62A5BA3833D3B3A64DDEB13905

  /** Multiples of the four basis vectors. */
  datatype Coords = Coords(w: int, x: int, y: int, z: int)

  /** Sub-scalar `j` of `k` for given multiples of the basis vectors. */
  ghost function Sub(k: int, a: Coords, j: nat): int
    requires j < 4
  {
    if j == 0 then k - a.w * V11 - a.x * V21 - a.y * V31 - a.z * V41 + C1
    else if j == 1 then 0 - a.w * V12 - a.x * V22 - a.y * V32 - a.z * V42 + C2
    else if j == 2 then 0 - a.w * V13 - a.x * V23 - a.y * V33 - a.z * V43 + C3
    else 0 - a.w * V14 - a.x * V24 - a.y * V34 - a.z * V44 + C4
  }

  /** All four are limbs. */
  ghost predicate Fit(k: int, a: Coords) {
    forall j: nat :: j < 4 ==> 0 <= Sub(k, a, j) < BASE
  }

  /** A rounded coordinate of `k`: its distance from `k * ahat / ORDER` is between -1/2 and 3/2. */
  ghost predicate Near(k: int, ahat: int, a: int) {
    -ORDER < 2 * (k * ahat - ORDER * a) < 3 * ORDER
  }

  ghost predicate AllNear(k: int, a: Coords) {
    Near(k, A1, a.w) && Near(k, A2, a.x) && Near(k, A3, a.y) && Near(k, A4, a.z)
  }

  /** `a` is `k * ell / 2^256` rounded down. */
  ghost predicate FloorOf(k: int, ell: int, a: int) {
    a * B4 <= k * ell < (a + 1) * B4
  }

  /** The coordinates as the code rounds them. */
  ghost predicate Rounding(k: int, a: Coords) {
    FloorOf(k, ELL1, a.w) && FloorOf(k, ELL2, a.x) && FloorOf(k, ELL3, a.y) && FloorOf(k, ELL4, a.z)
  }

  lemma Near1(k: int, a: int)
    requires 0 <= k < B4 && FloorOf(k, ELL1, a)
    ensures Near(k, A1, a)
  {
  }

  lemma Near2(k: int, a: int)
    requires 0 <= k < B4 && FloorOf(k, ELL2, a)
    ensures Near(k, A2, a)
  {
  }

  lemma Near3(k: int, a: int)
    requires 0 <= k < B4 && FloorOf(k, ELL3, a)
    ensures Near(k, A3, a)
  {
  }

  lemma Near4(k: int, a: int)
    requires 0 <= k < B4 && FloorOf(k, ELL4, a)
    ensures Near(k, A4, a)
  {
  }

  /** One less of the last basis vector. */
  function Lower(a: Coords): Coords {
    a.(z := a.z - 1)
  }

  lemma Range0(k: int, w: int, x: int, y: int, z: int, e: bit)
    requires Near(k, A1, w) && Near(k, A2, x) && Near(k, A3, y) && Near(k, A4, z)
    ensures 0 <= k - w * V11 - x * V21 - y * V31 - (z - e) * V41 + C1 < BASE
  {
  }

  lemma Range1(k: int, w: int, x: int, y: int, z: int, e: bit)
    requires Near(k, A1, w) && Near(k, A2, x) && Near(k, A3, y) && Near(k, A4, z)
    ensures 0 <= 0 - w * V12 - x * V22 - y * V32 - (z - e) * V42 + C2 < BASE
  {
  }

  lemma Range2(k: int, w: int, x: int, y: int, z: int, e: bit)
    requires Near(k, A1, w) && Near(k, A2, x) && Near(k, A3, y) && Near(k, A4, z)
    ensures 0 <= 0 - w * V13 - x * V23 - y * V33 - (z - e) * V43 + C3 < BASE
  {
  }

  lemma Range3(k: int, w: int, x: int, y: int, z: int, e: bit)
    requires Near(k, A1, w) && Near(k, A2, x) && Near(k, A3, y) && Near(k, A4, z)
    ensures 0 <= 0 - w * V14 - x * V24 - y * V34 - (z - e) * V44 + C4 < BASE
  {
  }

  lemma NearFits(k: int, a: Coords, b: Coords, e: bit)
    requires AllNear(k, a) && b == Coords(a.w, a.x, a.y, a.z - e)
    ensures Fit(k, b)
  {
    forall j: nat | j < 4 ensures 0 <= Sub(k, b, j) < BASE {
      NearFitsAt(k, a, b, e, j);
    }
  }

  lemma NearFitsAt(k: int, a: Coords, b: Coords, e: bit, j: nat)
    requires AllNear(k, a) && b == Coords(a.w, a.x, a.y, a.z - e) && j < 4
    ensures 0 <= Sub(k, b, j) < BASE
  {
    if j == 0 {
      Range0(k, a.w, a.x, a.y, a.z, e);
    } else if j == 1 {
      Range1(k, a.w, a.x, a.y, a.z, e);
    } else if j == 2 {
      Range2(k, a.w, a.x, a.y, a.z, e);
    } else {
      Range3(k, a.w, a.x, a.y, a.z, e);
    }
  }

  lemma RoundingFits(k: int, a: Coords)
    requires 0 <= k < B4 && Rounding(k, a)
    ensures Fit(k, a) && Fit(k, Lower(a))
  {
    Near1(k, a.w);
    Near2(k, a.x);
    Near3(k, a.y);
    Near4(k, a.z);
    NearFits(k, a, a, 0);
    NearFits(k, a, Lower(a), 1);
  }

  lemma LowerSub(k: int, a: Coords, j: nat)
    requires j < 4
    ensures Sub(k, Lower(a), j) == Sub(k, a, j) + Row(3)[j]
  {
  }

  /** The coordinates that make the first sub-scalar odd. */
  ghost function OddOf(k: int, a: Coords): Coords {
    if Sub(k, a, 0) % 2 == 1 then a else Lower(a)
  }

  lemma Parity(k: int, a: Coords)
    ensures Sub(k, OddOf(k, a), 0) % 2 == 1
  {
    LowerSub(k, a, 0);
    OddStep(Sub(k, a, 0));
  }

  lemma OddStep(v: int)
    ensures (v + V41) % 2 != v % 2
  {
  }

  /** The sub-scalars of every 256-bit scalar are non-negative and below 2^64, and the first is odd. */
  lemma OddFits(k: int, a: Coords)
    requires 0 <= k < B4 && Rounding(k, a)
    ensures Fit(k, OddOf(k, a)) && Sub(k, OddOf(k, a), 0) % 2 == 1
  {
    RoundingFits(k, a);
    Parity(k, a);
  }

  ghost function Rounded(k: int): (a: Coords)
    ensures Rounding(k, a)
  {
    Coords(k * ELL1 / B4, k * ELL2 / B4, k * ELL3 / B4, k * ELL4 / B4)
  }

  ghost function Subs(k: int, a: Coords): (vs: seq<int>)
    ensures |vs| == 4 && forall j: nat :: j < 4 ==> vs[j] == Sub(k, a, j)
  {
    [Sub(k, a, 0), Sub(k, a, 1), Sub(k, a, 2), Sub(k, a, 3)]
  }

  /** The sub-scalars of `k`, as integers. */
  ghost function SubScalars(k: int): (vs: seq<int>)
    ensures |vs| == 4
  {
    Subs(k, OddOf(k, Rounded(k)))
  }

  // ----- What the sub-scalars stand for -----

  function Row(i: nat): (vs: seq<int>)
    requires i < 4
    ensures |vs| == 4
  {
    if i == 0 then [V11, V12, V13, V14]
    else if i == 1 then [V21, V22, V23, V24]
    else if i == 2 then [V31, V32, V33, V34]
    else [V41, V42, V43, V44]
  }

  /** The basis vectors are relations between the points. */
  ghost predicate Related<G>(g: Group<G>, ps: seq<G>) {
    |ps| == 4 && forall i: nat :: i < 4 ==> Combination(g, Row(i), ps) == g.zero
  }

  /** What the endomorphisms multiply points of prime order by. */
  const PHI: int := 0x6D9069DC876C883C18F03C13D737624874F0B5E4DAA9BCDF0E63CE8997864
  const PSI: int := 0x18C475353519268C4C2510AB53B51ECB3688CA09EF0E885DC7F2B7CDFD2A88

  /** The points are a point of prime order and its images under the endomorphisms. */
  ghost predicate Eigen<G>(g: Group<G>, ps: seq<G>) {
    && |ps| == 4 && Times(g, ORDER, ps[0]) == g.zero
    && ps[1] == Times(g, PHI, ps[0]) && ps[2] == Times(g, PSI, ps[0]) && ps[3] == Times(g, PSI, ps[1])
  }

  /** How often the order goes into a basis vector evaluated at 1, PHI, PSI and PSI * PHI. */
  function Multiplicity(i: nat): int
    requires i < 4
  {
    if i == 0 then -0x21B8DCC2DEE06DBA287B674AA356A48B9773E27232E438CAA08B654F1A3BC3464DB80CB1D91E
    else if i == 1 then 0x999FAE6D98F83DA17AE68CAD5D58FA81A2A4E29B2482002F40ED50F96A0204C947F7E376F248
    else if i == 2 then 0x2B16FA73ED9BB11694F7DF0C0B55D8B539DE8EDB5F5CC74CFFEB432D9AC5230278716000A9C2
    else -0x64C3D60534703D7E6A49B1063A954BBD6475A682CC7BEC6BA4D192B26FED8150B45E6D0D1437
  }

  lemma RowVanishes(i: nat)
    requires i < 4
    ensures Row(i)[0] + Row(i)[1] * PHI + Row(i)[2] * PSI + Row(i)[3] * (PSI * PHI) == Multiplicity(i) * ORDER
  {
  }

  /** The basis vectors are relations between a point of prime order and its images. */
  lemma EigenRelated<G(!new)>(g: Group<G>, ps: seq<G>)
    requires Abelian(g) && Eigen(g, ps)
    ensures Related(g, ps)
  {
    var q, ns := ps[0], [1, PHI, PSI, PSI * PHI];
    TimesTimes(g, PSI, PHI, q);
    assert Times(g, 0, q) == g.zero && UnitAt(g, q) && CommAt(g, g.zero, q);
    forall i: nat | i < 4 ensures Combination(g, Row(i), ps) == g.zero {
      CombinationMultiples(g, Row(i), ns, q, ps);
      DotFour(Row(i), ns);
      RowVanishes(i);
      TimesAnnihilated(g, Multiplicity(i), ORDER, q);
    }
  }

  function Plus(cs: seq<int>, n: int, row: seq<int>): (vs: seq<int>)
    requires |cs| == |row| == 4
    ensures |vs| == 4
  {
    [cs[0] + n * row[0], cs[1] + n * row[1], cs[2] + n * row[2], cs[3] + n * row[3]]
  }

  lemma PlusNext(cs: seq<int>, n: int, row: seq<int>)
    requires |cs| == |row| == 4
    ensures SumOfSeqs(Plus(cs, n, row), row, Plus(cs, n + 1, row))
  {
    Once(n, row[0]);
    Once(n, row[1]);
    Once(n, row[2]);
    Once(n, row[3]);
  }

  lemma Once(n: int, x: int)
    ensures (n + 1) * x == n * x + x
  {
  }

  /** Adding a relation once changes nothing. */
  lemma PlusOnce<G(!new)>(g: Group<G>, cs: seq<int>, n: int, row: seq<int>, ps: seq<G>)
    requires Abelian(g) && |cs| == |row| == |ps| == 4 && Combination(g, row, ps) == g.zero
    ensures Combination(g, Plus(cs, n + 1, row), ps) == Combination(g, Plus(cs, n, row), ps)
  {
    PlusNext(cs, n, row);
    CombinationAdd(g, Plus(cs, n, row), row, Plus(cs, n + 1, row), ps);
    assert UnitAt(g, Combination(g, Plus(cs, n, row), ps));
  }

  /** Adding a relation any number of times changes nothing. */
  lemma {:induction false} PlusRelation<G(!new)>(g: Group<G>, cs: seq<int>, n: int, row: seq<int>, ps: seq<G>)
    requires Abelian(g) && |cs| == |row| == |ps| == 4 && Combination(g, row, ps) == g.zero
    ensures Combination(g, Plus(cs, n, row), ps) == Combination(g, cs, ps)
    decreases if n < 0 then -n else n
  {
    if n == 0 {
      assert Plus(cs, n, row) == cs;
    } else if n > 0 {
      PlusRelation(g, cs, n - 1, row, ps);
      PlusOnce(g, cs, n - 1, row, ps);
    } else {
      PlusRelation(g, cs, n + 1, row, ps);
      PlusOnce(g, cs, n, row, ps);
    }
  }

  lemma FirstOnly<G(!new)>(g: Group<G>, k: int, ps: seq<G>)
    requires Abelian(g) && |ps| == 4
    ensures Combination(g, [k, 0, 0, 0], ps) == Times(g, k, ps[0])
  {
    CombinationZero(g, [0, 0, 0, 0], ps);
    assert [0, 0, 0, 0][0 := 0 + k] == [k, 0, 0, 0];
    CombinationAt(g, [0, 0, 0, 0], ps, 0, k);
    var x := Times(g, k, ps[0]);
    assert UnitAt(g, x) && CommAt(g, g.zero, x);
  }

  /** Multiples of all basis vectors added. */
  function Added(cs: seq<int>, n: Coords): (vs: seq<int>)
    requires |cs| == 4
    ensures |vs| == 4
  {
    Plus(Plus(Plus(Plus(cs, n.w, Row(0)), n.x, Row(1)), n.y, Row(2)), n.z, Row(3))
  }

  /** The offsets are a lattice point themselves. */
  lemma SubsAreAdded(k: int, a: Coords)
    ensures Subs(k, a) == Added([k, 0, 0, 0], Coords(-a.w, 5 - a.x, -3 - a.y, 2 - a.z))
  {
  }

  lemma PlusRow<G(!new)>(g: Group<G>, cs: seq<int>, n: int, i: nat, ps: seq<G>)
    requires Abelian(g) && Related(g, ps) && |cs| == 4 && i < 4
    ensures Combination(g, Plus(cs, n, Row(i)), ps) == Combination(g, cs, ps)
  {
    PlusRelation(g, cs, n, Row(i), ps);
  }

  lemma AddedSame<G(!new)>(g: Group<G>, cs: seq<int>, n: Coords, ps: seq<G>)
    requires Abelian(g) && Related(g, ps) && |cs| == 4
    ensures Combination(g, Added(cs, n), ps) == Combination(g, cs, ps)
  {
    PlusRow(g, cs, n.w, 0, ps);
    PlusRow(g, Plus(cs, n.w, Row(0)), n.x, 1, ps);
    PlusRow(g, Plus(Plus(cs, n.w, Row(0)), n.x, Row(1)), n.y, 2, ps);
    PlusRow(g, Plus(Plus(Plus(cs, n.w, Row(0)), n.x, Row(1)), n.y, Row(2)), n.z, 3, ps);
  }

  lemma AddedSum<G(!new)>(g: Group<G>, k: int, n: Coords, vs: seq<int>, ps: seq<G>)
    requires Abelian(g) && Related(g, ps) && vs == Added([k, 0, 0, 0], n)
    ensures Combination(g, vs, ps) == Times(g, k, ps[0])
  {
    AddedSame(g, [k, 0, 0, 0], n, ps);
    FirstOnly(g, k, ps);
  }

  /** Whatever the coordinates, the combination of the points by the sub-scalars is `k` times the first. */
  lemma SubsSum<G(!new)>(g: Group<G>, k: int, a: Coords, ps: seq<G>)
    requires Abelian(g) && Related(g, ps)
    ensures Combination(g, Subs(k, a), ps) == Times(g, k, ps[0])
  {
    SubsAreAdded(k, a);
    AddedSum(g, k, Coords(-a.w, 5 - a.x, -3 - a.y, 2 - a.z), Subs(k, a), ps);
  }

  // ----- decompose -----

  lemma WrapIs(x: int, v: int, q: int)
    requires 0 <= v < BASE && x == v + q * BASE
    ensures Wrap(x) == v
  {
  }

  /** `u` is the coordinate `a` modulo 2^64. */
  ghost predicate Low(u: u64, a: int, m: int) {
    a == u + m * BASE
  }

  lemma LowOf(u: u64, a: int)
    requires u == a % BASE
    ensures Low(u, a, a / BASE)
  {
  }

  ghost predicate AllLow(u1: u64, u2: u64, u3: u64, u4: u64, a: Coords, m: Coords) {
    Low(u1, a.w, m.w) && Low(u2, a.x, m.x) && Low(u3, a.y, m.y) && Low(u4, a.z, m.z)
  }

  /** Word 0 is sub-scalar 0. */
  method Word0(k0: u64, u1: u64, u2: u64, u3: u64, u4: u64, ghost k: int, ghost m0: int, ghost a: Coords,
               ghost m: Coords)
    returns (s0: u64)
    requires Low(k0, k, m0) && AllLow(u1, u2, u3, u4, a, m) && 0 <= Sub(k, a, 0) < BASE
    ensures s0 == Sub(k, a, 0)
  {
    s0 := Wrap(u1 * B11 + u2 * B21 + u3 * B31 + u4 * B41 + C1 + k0);
    WrapIs(u1 * B11 + u2 * B21 + u3 * B31 + u4 * B41 + C1 + k0, Sub(k, a, 0),
           a.w + a.x + a.y + a.z - m.w * B11 - m.x * B21 - m.y * B31 - m.z * B41 - m0);
  }

  /** Word 1 is sub-scalar 1. */
  method Word1(u1: u64, u2: u64, u3: u64, u4: u64, ghost k: int, ghost a: Coords, ghost m: Coords)
    returns (s1: u64)
    requires AllLow(u1, u2, u3, u4, a, m) && 0 <= Sub(k, a, 1) < BASE
    ensures s1 == Sub(k, a, 1)
  {
    s1 := Wrap(u1 * B12 + u2 * B22 + u3 * B32 + u4 * B42 + C2);
    WrapIs(u1 * B12 + u2 * B22 + u3 * B32 + u4 * B42 + C2, Sub(k, a, 1),
           a.y + a.z - m.w * B12 - m.x * B22 - m.y * B32 - m.z * B42);
  }

  /** Word 2 is sub-scalar 2. */
  method Word2(u1: u64, u2: u64, u3: u64, u4: u64, ghost k: int, ghost a: Coords, ghost m: Coords)
    returns (s2: u64)
    requires AllLow(u1, u2, u3, u4, a, m) && 0 <= Sub(k, a, 2) < BASE
    ensures s2 == Sub(k, a, 2)
  {
    s2 := Wrap(u1 * B13 + u2 * B23 + u3 * B33 + u4 * B43 + C3);
    WrapIs(u1 * B13 + u2 * B23 + u3 * B33 + u4 * B43 + C3, Sub(k, a, 2),
           a.w + a.x - m.w * B13 - m.x * B23 - m.y * B33 - m.z * B43);
  }

  /** Word 3 is sub-scalar 3. */
  method Word3(u1: u64, u2: u64, u3: u64, u4: u64, ghost k: int, ghost a: Coords, ghost m: Coords)
    returns (s3: u64)
    requires AllLow(u1, u2, u3, u4, a, m) && 0 <= Sub(k, a, 3) < BASE
    ensures s3 == Sub(k, a, 3)
  {
    s3 := Wrap(u1 * B14 + u2 * B24 + u3 * B34 + u4 * B44 + C4);
    WrapIs(u1 * B14 + u2 * B24 + u3 * B34 + u4 * B44 + C4, Sub(k, a, 3),
           a.x + a.y - m.w * B14 - m.x * B24 - m.y * B34 - m.z * B44);
  }

  /** Subtracting the last constants adds the last basis vector once. */
  lemma StepDown(k: int, a: Coords, j: nat, b: u64)
    requires j < 4 && b == [B41, B42, B43, B44][j] && 0 <= Sub(k, Lower(a), j) < BASE
    ensures Wrap(Sub(k, a, j) - b) == Sub(k, Lower(a), j)
  {
    LowerSub(k, a, j);
    WrapIs(Sub(k, a, j) - b, Sub(k, Lower(a), j), if j < 2 then -1 else 0);
  }

  /** The rounded coordinates of `k` modulo 2^64. */
  method RoundedWords(k: array<u64>) returns (u1: u64, u2: u64, u3: u64, u4: u64, ghost m: Coords)
    requires k.Length == 4
    ensures AllLow(u1, u2, u3, u4, Rounded(ValAt(k, 0)), m)
  {
    u1 := MulTruncate(k[0], k[1], k[2], k[3], L1_0, L1_1, L1_2, L1_3);
    u2 := MulTruncate(k[0], k[1], k[2], k[3], L2_0, L2_1, L2_2, L2_3);
    u3 := MulTruncate(k[0], k[1], k[2], k[3], L3_0, L3_1, L3_2, L3_3);
    u4 := MulTruncate(k[0], k[1], k[2], k[3], L4_0, L4_1, L4_2, L4_3);
    ghost var a := Rounded(ValAt(k, 0));
    m := Coords(a.w / BASE, a.x / BASE, a.y / BASE, a.z / BASE);
    LowOf(u1, a.w);
    LowOf(u2, a.x);
    LowOf(u3, a.y);
    LowOf(u4, a.z);
  }

  /** The four words before the parity step. */
  method FirstWords(k0: u64, u1: u64, u2: u64, u3: u64, u4: u64, ghost k: int, ghost m0: int, ghost a: Coords,
                    ghost m: Coords)
    returns (s: seq<u64>)
    requires Low(k0, k, m0) && AllLow(u1, u2, u3, u4, a, m) && Fit(k, a)
    ensures s == Subs(k, a)
  {
    var s0 := Word0(k0, u1, u2, u3, u4, k, m0, a, m);
    var s1 := Word1(u1, u2, u3, u4, k, a, m);
    var s2 := Word2(u1, u2, u3, u4, k, a, m);
    var s3 := Word3(u1, u2, u3, u4, k, a, m);
    s := [s0, s1, s2, s3];
  }

  /** The parity step. */
  method StepWords(s: seq<u64>, ghost k: int, ghost a: Coords) returns (r: seq<u64>)
    requires s == Subs(k, a) && Fit(k, Lower(a))
    ensures r == Subs(k, Lower(a))
  {
    r := [Wrap(s[0] - B41), Wrap(s[1] - B42), Wrap(s[2] - B43), Wrap(s[3] - B44)];
    StepDown(k, a, 0, B41);
    StepDown(k, a, 1, B42);
    StepDown(k, a, 2, B43);
    StepDown(k, a, 3, B44);
  }

  /** The words and the parity step. */
  method OddWords(k0: u64, u1: u64, u2: u64, u3: u64, u4: u64, ghost k: int, ghost m0: int, ghost a: Coords,
                  ghost m: Coords)
    returns (s: seq<u64>)
    requires 0 <= k < B4 && Low(k0, k, m0) && AllLow(u1, u2, u3, u4, a, m) && Rounding(k, a)
    ensures s == Subs(k, OddOf(k, a)) && s[0] % 2 == 1
  {
    RoundingFits(k, a);
    OddFits(k, a);
    s := FirstWords(k0, u1, u2, u3, u4, k, m0, a, m);
    if s[0] % 2 == 0 {
      s := StepWords(s, k, a);
    }
  }

  /** `decompose`: the sub-scalars of every 256-bit scalar. */
  method Decompose(k: array<u64>) returns (s: seq<u64>)
    requires k.Length == 4
    ensures s == SubScalars(ValAt(k, 0)) && s[0] % 2 == 1
  {
    ghost var n := ValAt(k, 0);
    ghost var m;
    var u1, u2, u3, u4;
    u1, u2, u3, u4, m := RoundedWords(k);
    s := OddWords(k[0], u1, u2, u3, u4, n, k[1] + k[2] * BASE + k[3] * B2, Rounded(n), m);
  }
}
