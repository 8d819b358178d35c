/** Fixed-base scalar multiplication of FourQ: the comb loop over the recoded scalar. */
module FourQComb {
  import opened Limbs
  import opened Powers
  import opened GroupSums
  import opened FourQOrder
  import opened FourQRecoding
  import opened FourQLoops

  // ----- The value of a scalar by columns of ten digits -----

  /** Two digits blocks, one on top of the other. */
  lemma {:induction false} HornerConcat(a: seq<int>, b: seq<int>)
    ensures Horner(a + b, 0) == Horner(a, 0) + Shift(Horner(b, 0), |a|)
  {
    if a == [] {
      assert a + b == b;
    } else {
      assert (a + b)[1..] == a[1..] + b;
      HornerConcat(a[1..], b);
    }
  }

  lemma Shift10(e: int)
    ensures Shift(e, 10) == 0x400 * e
  {
    Shift16(e, 2);
    assert Shift(e, 2) == 2 * Shift(e, 1) == 4 * e;
  }

  /** The digits at positions `i` to 9 of every block of ten, each block at its place. */
  ghost function Blocks(ds: seq<int>, i: nat): int
    requires |ds| % 10 == 0 && i <= 10
  {
    if |ds| < 10 then 0 else Horner(ds[i..10], 0) + 0x400 * Blocks(ds[10..], i)
  }

  /** The digits at position `i` of every block of ten. */
  ghost function Column(ds: seq<int>, i: nat): int
    requires |ds| % 10 == 0 && i < 10
  {
    if |ds| < 10 then 0 else ds[i] + 0x400 * Column(ds[10..], i)
  }

  lemma {:induction false} BlocksWhole(ds: seq<int>)
    requires |ds| % 10 == 0
    ensures Blocks(ds, 0) == Horner(ds, 0)
  {
    if |ds| >= 10 {
      BlocksWhole(ds[10..]);
      assert ds == ds[0..10] + ds[10..];
      HornerConcat(ds[0..10], ds[10..]);
      Shift10(Horner(ds[10..], 0));
    }
  }

  lemma {:induction false} BlocksEmpty(ds: seq<int>)
    requires |ds| % 10 == 0
    ensures Blocks(ds, 10) == 0
  {
    if |ds| >= 10 { BlocksEmpty(ds[10..]); }
  }

  lemma {:induction false} BlocksStep(ds: seq<int>, i: nat)
    requires |ds| % 10 == 0 && i < 10
    ensures Blocks(ds, i) == 2 * Blocks(ds, i + 1) + Column(ds, i)
  {
    if |ds| >= 10 {
      BlocksStep(ds[10..], i);
      assert ds[i..10][1..] == ds[i + 1..10];
    }
  }

  // ----- Columns row by row -----

  function Poly10(a: int, b: int, c: int, d: int, e: int): int {
    a + 0x400 * (b + 0x400 * (c + 0x400 * (d + 0x400 * e)))
  }

  function Poly50(a: int, b: int, c: int, d: int, e: int): int {
    a + 0x4_0000_0000_0000 * (b + 0x4_0000_0000_0000 * (c + 0x4_0000_0000_0000 * (d + 0x4_0000_0000_0000 * e)))
  }

  /** Five digits ten apart, from position `n`. */
  ghost function Five(ds: seq<int>, n: nat): int
    requires n + 40 < |ds|
  {
    Poly10(ds[n], ds[n + 10], ds[n + 20], ds[n + 30], ds[n + 40])
  }

  /** Five digits fifty apart, from position `n`. */
  ghost function Row(ds: seq<int>, n: nat): int
    requires |ds| == 250 && n < 50
  {
    Poly50(ds[n], ds[n + 50], ds[n + 100], ds[n + 150], ds[n + 200])
  }

  lemma Column5(ds: seq<int>, i: nat)
    requires |ds| % 10 == 0 && |ds| >= 50 && i < 10
    ensures Column(ds, i) == Five(ds, i) + 0x4_0000_0000_0000 * Column(ds[50..], i)
  {
    var d1, d2, d3, d4 := ds[10..], ds[20..], ds[30..], ds[40..];
    assert d1[10..] == d2 && d2[10..] == d3 && d3[10..] == d4 && d4[10..] == ds[50..];
    assert Column(d4, i) == d4[i] + 0x400 * Column(ds[50..], i);
    assert Column(d2, i) == d2[i] + 0x400 * (d3[i] + 0x400 * Column(d4, i));
  }

  lemma ColumnFrom(ds: seq<int>, n: nat, i: nat)
    requires |ds| == 250 && n % 10 == 0 && n <= 200 && i < 10
    ensures Column(ds[n..], i) == Five(ds, n + i) + 0x4_0000_0000_0000 * Column(ds[n + 50..], i)
  {
    assert ds[n..][50..] == ds[n + 50..];
    Column5(ds[n..], i);
  }

  lemma ColumnTop(ds: seq<int>, i: nat)
    requires |ds| == 250 && i < 10
    ensures Column(ds[150..], i) == Five(ds, 150 + i) + 0x4_0000_0000_0000 * Five(ds, 200 + i)
  {
    ColumnFrom(ds, 150, i);
    ColumnFrom(ds, 200, i);
  }

  /** A column of 25 digits, five blocks of five. */
  lemma ColumnBlocks(ds: seq<int>, i: nat)
    requires |ds| == 250 && i < 10
    ensures Column(ds, i)
              == Poly50(Five(ds, i), Five(ds, 50 + i), Five(ds, 100 + i), Five(ds, 150 + i), Five(ds, 200 + i))
  {
    ColumnFrom(ds, 0, i);
    ColumnFrom(ds, 50, i);
    ColumnFrom(ds, 100, i);
    ColumnTop(ds, i);
    assert ds[0..] == ds;
  }

  /** The same column, row by row. */
  lemma ColumnRows(ds: seq<int>, i: nat)
    requires |ds| == 250 && i < 10
    ensures Column(ds, i) == Poly10(Row(ds, i), Row(ds, 10 + i), Row(ds, 20 + i), Row(ds, 30 + i), Row(ds, 40 + i))
  {
    ColumnBlocks(ds, i);
  }

  /** Rows `v` to 4 of a column, in Horner's form. */
  ghost function Upper(ds: seq<int>, i: nat, v: nat): int
    requires |ds| == 250 && i < 10 && v <= 5
    decreases 5 - v
  {
    if v == 5 then 0 else Row(ds, 10 * v + i) + 0x400 * Upper(ds, i, v + 1)
  }

  /** `e` moved up by `v` rows. */
  function RowShift(e: int, v: nat): int {
    if v == 0 then e else 0x400 * RowShift(e, v - 1)
  }

  lemma {:induction false} RowShiftAdd(a: int, b: int, v: nat)
    ensures RowShift(a + 0x400 * b, v) == RowShift(a, v) + RowShift(b, v + 1)
  {
    if v > 0 { RowShiftAdd(a, b, v - 1); }
  }

  lemma {:induction false} RowShiftNeg(e: int, v: nat)
    ensures RowShift(-e, v) == -RowShift(e, v) && RowShift(0, v) == 0
  {
    if v > 0 { RowShiftNeg(e, v - 1); }
  }

  /** Rows `v` to 4 of a column, at their place. */
  ghost function RowsFrom(ds: seq<int>, i: nat, v: nat): int
    requires |ds| == 250 && i < 10 && v <= 5
  {
    RowShift(Upper(ds, i, v), v)
  }

  lemma RowsNext(ds: seq<int>, i: nat, v: nat)
    requires |ds| == 250 && i < 10 && v < 5
    ensures RowsFrom(ds, i, v) == RowsFrom(ds, i, v + 1) + RowShift(Row(ds, 10 * v + i), v)
  {
    RowShiftAdd(Row(ds, 10 * v + i), Upper(ds, i, v + 1), v);
  }

  lemma RowsWhole(ds: seq<int>, i: nat)
    requires |ds| == 250 && i < 10
    ensures RowsFrom(ds, i, 0) == Column(ds, i)
  {
    ColumnRows(ds, i);
    assert Upper(ds, i, 3) == Row(ds, 30 + i) + 0x400 * Upper(ds, i, 4);
    assert Upper(ds, i, 1) == Row(ds, 10 + i) + 0x400 * Upper(ds, i, 2);
  }

  // ----- The table -----

  /** The multiple that entry `u` of a row of the table holds, before the row's shift. */
  function Multiple(u: nat): int
    requires u < 16
  {
    Poly50(1, u % 2, (u / 2) % 2, (u / 4) % 2, (u / 8) % 2)
  }

  ghost predicate CombEntry<G>(g: Group<G>, table: seq<G>, x: G, v: nat, u: nat)
    requires |table| == 80 && v < 5 && u < 16
  {
    table[16 * v + u] == Times(g, RowShift(Multiple(u), v), x)
  }

  ghost predicate CombTable<G>(g: Group<G>, table: seq<G>, x: G) {
    |table| == 80 && forall v: nat, u: nat :: v < 5 && u < 16 ==> CombEntry(g, table, x, v, u)
  }

  /** The entry, negated when the sign digit is set. */
  function Lookup<G>(g: Group<G>, table: seq<G>, digit: nat, sign: int): G
    requires digit < |table|
  {
    if sign != 0 then g.neg(table[digit]) else table[digit]
  }

  /** The four digits above position `n` of the sign row, as one number. */
  function Packed(digits: seq<int>, n: nat): (u: int)
    requires |digits| == 250 && n < 50
  {
    2 * (2 * (2 * digits[200 + n] + digits[150 + n]) + digits[100 + n]) + digits[50 + n]
  }

  ghost predicate Recoded(digits: seq<int>) {
    |digits| == 250 && SignRow(digits) && BitRows(digits, 250)
  }

  lemma PackedBits(digits: seq<int>, n: nat)
    requires Recoded(digits) && n < 50
    ensures 0 <= Packed(digits, n) < 16
    ensures var u := Packed(digits, n);
            && u % 2 == digits[50 + n] && (u / 2) % 2 == digits[100 + n]
            && (u / 4) % 2 == digits[150 + n] && (u / 8) % 2 == digits[200 + n]
  {
    var a, b, c, d := digits[50 + n], digits[100 + n], digits[150 + n], digits[200 + n];
    assert BitRows(digits, 250);
    FourBits(a, b, c, d);
  }

  lemma FourBits(a: int, b: int, c: int, d: int)
    requires 0 <= a <= 1 && 0 <= b <= 1 && 0 <= c <= 1 && 0 <= d <= 1
    ensures var u := 2 * (2 * (2 * d + c) + b) + a;
            0 <= u < 16 && u % 2 == a && (u / 2) % 2 == b && (u / 4) % 2 == c && (u / 8) % 2 == d
  {
  }

  /** A row of signed digits is the sign times the multiple its digits name. */
  lemma {:induction false} RowMultiple(digits: seq<int>, n: nat)
    requires Recoded(digits) && n < 50
    ensures 0 <= Packed(digits, n) < 16
    ensures var m := Multiple(Packed(digits, n)); Row(CombDigits(digits, 250), n) == if digits[n] == 0 then m else -m
  {
    PackedBits(digits, n);
    var ds := CombDigits(digits, 250);
    assert (50 + n) % 50 == n && (100 + n) % 50 == n && (150 + n) % 50 == n && (200 + n) % 50 == n;
    SignedPoly(digits[n], ds[n], ds[50 + n], ds[100 + n], ds[150 + n], ds[200 + n],
               digits[50 + n], digits[100 + n], digits[150 + n], digits[200 + n]);
  }

  lemma SignedPoly(sign: int, r: int, a: int, b: int, c: int, d: int, a': int, b': int, c': int, d': int)
    requires r == Sign(sign) && a == r * a' && b == r * b' && c == r * c' && d == r * d'
    ensures var m := Poly50(1, a', b', c', d'); Poly50(r, a, b, c, d) == if sign == 0 then m else -m
  {
  }

  lemma LookupCorrect<G(!new)>(g: Group<G>, table: seq<G>, x: G, digits: seq<int>, v: nat, i: nat)
    requires Abelian(g) && CombTable(g, table, x) && Recoded(digits) && v < 5 && i < 10
    ensures 0 <= Packed(digits, 10 * v + i) < 16
    ensures Lookup(g, table, 16 * v + Packed(digits, 10 * v + i), digits[10 * v + i])
         == Times(g, RowShift(Row(CombDigits(digits, 250), 10 * v + i), v), x)
  {
    var n := 10 * v + i;
    RowMultiple(digits, n);
    var u: nat := Packed(digits, n);
    assert CombEntry(g, table, x, v, u);
    SignedMultiple(g, x, v, Multiple(u), Row(CombDigits(digits, 250), n), digits[n]);
  }

  lemma SignedMultiple<G(!new)>(g: Group<G>, x: G, v: nat, m: int, r: int, sign: int)
    requires Abelian(g) && r == if sign == 0 then m else -m
    ensures Times(g, RowShift(r, v), x)
         == if sign != 0 then g.neg(Times(g, RowShift(m, v), x)) else Times(g, RowShift(m, v), x)
  {
    RowShiftNeg(m, v);
    TimesNeg(g, RowShift(m, v), x);
  }

  // ----- The loop -----

  /** What is accumulated when rows `v` to 4 of position `i` are in. */
  ghost predicate Accumulated<G>(g: Group<G>, ds: seq<int>, x: G, i: nat, v: nat, t: G)
    requires |ds| == 250 && i < 10 && v <= 5
  {
    t == Times(g, 2 * Blocks(ds, i + 1) + RowsFrom(ds, i, v), x)
  }

  lemma RowAdded<G(!new)>(g: Group<G>, ds: seq<int>, x: G, i: nat, v: nat, t: G, entry: G)
    requires Abelian(g) && |ds| == 250 && i < 10 && v < 5 && Accumulated(g, ds, x, i, v + 1, t)
    requires entry == Times(g, RowShift(Row(ds, 10 * v + i), v), x)
    ensures Accumulated(g, ds, x, i, v, g.add(t, entry))
  {
    RowsNext(ds, i, v);
    TimesAdd(g, 2 * Blocks(ds, i + 1) + RowsFrom(ds, i, v + 1), RowShift(Row(ds, 10 * v + i), v), x);
  }

  lemma ColumnAdded<G(!new)>(g: Group<G>, ds: seq<int>, i: nat, t: G, x: G)
    requires |ds| == 250 && i < 10 && Accumulated(g, ds, x, i, 0, t)
    ensures t == Times(g, Blocks(ds, i), x)
  {
    RowsWhole(ds, i);
    BlocksStep(ds, i);
  }

  method AddRow<G(!new)>(g: Group<G>, table: seq<G>, digits: seq<int>, i: nat, v: nat, t: G, ghost x: G) returns (t': G)
    requires Abelian(g) && CombTable(g, table, x) && Recoded(digits) && i < 10 && v < 5
    requires Accumulated(g, CombDigits(digits, 250), x, i, v + 1, t)
    ensures Accumulated(g, CombDigits(digits, 250), x, i, v, t')
  {
    LookupCorrect(g, table, x, digits, v, i);
    var entry := Lookup(g, table, 16 * v + Packed(digits, 10 * v + i), digits[10 * v + i]);
    RowAdded(g, CombDigits(digits, 250), x, i, v, t, entry);
    t' := g.add(t, entry);
  }

  /** The rows below `top` of position `i`. */
  method AddRows<G(!new)>(g: Group<G>, table: seq<G>, digits: seq<int>, i: nat, top: nat, t: G, ghost x: G)
    returns (t': G)
    requires Abelian(g) && CombTable(g, table, x) && Recoded(digits) && i < 10 && top <= 5
    requires Accumulated(g, CombDigits(digits, 250), x, i, top, t)
    ensures t' == Times(g, Blocks(CombDigits(digits, 250), i), x)
  {
    ghost var ds := CombDigits(digits, 250);
    t' := t;
    for v := top downto 0
      invariant Accumulated(g, ds, x, i, v, t')
    {
      t' := AddRow(g, table, digits, i, v, t', x);
    }
    ColumnAdded(g, ds, i, t', x);
  }

  lemma FirstLookup<G(!new)>(g: Group<G>, ds: seq<int>, x: G, entry: G)
    requires Abelian(g) && |ds| == 250 && entry == Times(g, RowShift(Row(ds, 49), 4), x)
    ensures Accumulated(g, ds, x, 9, 4, entry)
  {
    BlocksEmpty(ds);
    RowsNext(ds, 9, 4);
    RowShiftNeg(0, 5);
  }

  lemma DoubleBlocks<G(!new)>(g: Group<G>, ds: seq<int>, x: G, i: nat, t: G)
    requires Abelian(g) && |ds| == 250 && i < 10 && t == Times(g, Blocks(ds, i + 1), x)
    ensures Accumulated(g, ds, x, i, 5, g.add(t, t))
  {
    TimesAdd(g, Blocks(ds, i + 1), Blocks(ds, i + 1), x);
    RowShiftNeg(0, 5);
    assert Upper(ds, i, 5) == 0;
  }

  /** The first five look-ups, before any doubling. */
  method FirstBlock<G(!new)>(g: Group<G>, table: seq<G>, digits: seq<int>, ghost x: G) returns (t: G)
    requires Abelian(g) && CombTable(g, table, x) && Recoded(digits)
    ensures t == Times(g, Blocks(CombDigits(digits, 250), 9), x)
  {
    LookupCorrect(g, table, x, digits, 4, 9);
    t := Lookup(g, table, 64 + Packed(digits, 49), 0);
    FirstLookup(g, CombDigits(digits, 250), x, t);
    t := AddRows(g, table, digits, 9, 4, t, x);
  }

  /** The 50 look-ups and 9 doublings of `ecc_mul_fixed`. */
  method CombLoop<G(!new)>(g: Group<G>, table: seq<G>, digits: seq<int>, ghost x: G) returns (t: G)
    requires Abelian(g) && CombTable(g, table, x) && Recoded(digits)
    ensures t == Times(g, Horner(CombDigits(digits, 250), 0), x)
  {
    ghost var ds := CombDigits(digits, 250);
    t := FirstBlock(g, table, digits, x);
    for i := 9 downto 0
      invariant t == Times(g, Blocks(ds, i), x)
    {
      DoubleBlocks(g, ds, x, i, t);
      t := AddRows(g, table, digits, i, 5, g.add(t, t), x);
    }
    BlocksWhole(ds);
  }

  lemma {:induction false} TimesPeriod<G(!new)>(g: Group<G>, m: int, n: nat, q: nat, x: G)
    requires Abelian(g) && Times(g, n, x) == g.zero
    ensures Times(g, m + q * n, x) == Times(g, m, x)
  {
    if q > 0 {
      TimesPeriod(g, m, n, q - 1, x);
      assert m + q * n == m + (q - 1) * n + n;
      TimesAdd(g, m + (q - 1) * n, n, x);
      assert UnitAt(g, Times(g, m, x));
    }
  }

  lemma SameMultiple<G(!new)>(g: Group<G>, a: int, b: int, n: nat, p: nat, q: nat, r: int, x: G)
    requires Abelian(g) && Times(g, n, x) == g.zero && a == r + p * n && b == r + q * n
    ensures Times(g, a, x) == Times(g, b, x)
  {
    TimesPeriod(g, r, n, p, x);
    TimesPeriod(g, r, n, q, x);
  }

  /** Scalars congruent modulo the order have the same multiple. */
  lemma {:induction false} TimesModulo<G(!new)>(g: Group<G>, a: nat, b: nat, x: G)
    requires Abelian(g) && Times(g, ORDER, x) == g.zero && a % ORDER == b % ORDER
    ensures Times(g, a, x) == Times(g, b, x)
  {
    SameMultiple(g, a, b, ORDER, a / ORDER, b / ORDER, a % ORDER, x);
  }

  /** `ecc_mul_fixed`: k times the generator, whose order is the curve order. */
  method MulFixed<G(!new)>(g: Group<G>, table: seq<G>, k: array<u64>, ghost x: G) returns (t: G)
    requires Abelian(g) && CombTable(g, table, x) && Times(g, ORDER, x) == g.zero && k.Length == 4
    ensures t == Times(g, ValAt(k, 0), x)
  {
    var scalar, digits := new u64[4], new int[250];
    OddScalar(k, scalar);
    ghost var odd := ValAt(scalar, 0);
    FixedBaseRecode(scalar, digits);
    t := CombLoop(g, table, digits[..], x);
    TimesModulo(g, odd, ValAt(k, 0), x);
  }
}
