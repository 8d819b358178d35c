/** The scalar multiplication loops of FourQ over any abelian group: what they compute from
    recoded scalars and precomputed tables. Point formulas enter as the group operation. */
module FourQLoops {
  import opened Limbs
  import opened Powers
  import opened GroupSums
  import opened FourQOrder
  import opened FourQDecompose
  import opened FourQRecoding

  // ----- Interleaved evaluation of several recoded scalars -----

  /** A table of the odd multiples of `x`. */
  ghost predicate OddTable<G>(g: Group<G>, table: seq<G>, x: G) {
    forall m: nat :: m < |table| ==> table[m] == Times(g, 2 * m + 1, x)
  }

  /** A digit finds its multiple in a table of `size` odd multiples. */
  predicate InTable(d: int, size: nat) {
    d == 0 || (d % 2 == 1 && -2 * size < d < 2 * size)
  }

  /** Adds `d * x` to `t` by table look-up: nothing for 0, the entry for d > 0, its negation for d < 0. */
  function AddDigit<G>(g: Group<G>, t: G, table: seq<G>, d: int): (r: G)
    requires InTable(d, |table|)
  {
    if d < 0 then g.add(t, g.neg(table[(-d) / 2]))
    else if d > 0 then g.add(t, table[d / 2])
    else t
  }

  lemma AddDigitCorrect<G(!new)>(g: Group<G>, t: G, table: seq<G>, d: int, x: G)
    requires Abelian(g) && InTable(d, |table|) && OddTable(g, table, x)
    ensures AddDigit(g, t, table, d) == g.add(t, Times(g, d, x))
  {
    if d < 0 {
      assert 2 * ((-d) / 2) + 1 == -d;
      TimesNeg(g, -d, x);
    } else if d > 0 {
      assert 2 * (d / 2) + 1 == d;
    } else {
      assert UnitAt(g, t);
    }
  }

  /** Every scalar has at least `n` digits. */
  ghost predicate Tall(digits: seq<seq<int>>, n: nat) {
    forall j: nat :: j < |digits| ==> n <= |digits[j]|
  }

  /** The values of the digits from position `i` up, one per scalar. */
  ghost function Values(digits: seq<seq<int>>, i: nat): (vs: seq<int>)
    requires Tall(digits, i)
    ensures |vs| == |digits| && forall j: nat :: j < |digits| ==> vs[j] == Horner(digits[j][i..], 0)
  {
    seq(|digits|, (j: nat) requires j < |digits| => Horner(digits[j][i..], 0))
  }

  /** The coefficients while position `i` is being added: doubled, with the first `n` digits in. */
  ghost function Partial(digits: seq<seq<int>>, i: nat, n: nat): (vs: seq<int>)
    requires Tall(digits, i + 1)
    ensures |vs| == |digits|
    ensures forall j: nat :: j < |digits| ==>
              vs[j] == 2 * Horner(digits[j][i + 1..], 0) + (if j < n then digits[j][i] else 0)
  {
    seq(|digits|,
        (j: nat) requires j < |digits| => 2 * Horner(digits[j][i + 1..], 0) + (if j < n then digits[j][i] else 0))
  }

  lemma PartialDone(digits: seq<seq<int>>, i: nat)
    requires Tall(digits, i + 1)
    ensures Partial(digits, i, |digits|) == Values(digits, i)
  {
    forall j: nat | j < |digits| ensures Partial(digits, i, |digits|)[j] == Values(digits, i)[j] {
      assert digits[j][i..][1..] == digits[j][i + 1..];
    }
  }

  lemma PartialNext(digits: seq<seq<int>>, i: nat, n: nat)
    requires n < |digits| && Tall(digits, i + 1)
    ensures var p := Partial(digits, i, n); Partial(digits, i, n + 1) == p[n := p[n] + digits[n][i]]
  {
    var p, q := Partial(digits, i, n), Partial(digits, i, n + 1);
    forall j: nat | j < |digits| ensures q[j] == p[n := p[n] + digits[n][i]][j] {
    }
  }

  /** The table of scalar `j` holds every multiple its digits name. */
  ghost predicate TableFits<G>(g: Group<G>, tables: seq<seq<G>>, digits: seq<seq<int>>, ps: seq<G>, j: nat)
    requires |tables| == |digits| == |ps| && j < |ps|
  {
    OddTable(g, tables[j], ps[j]) && forall i: nat :: i < |digits[j]| ==> InTable(digits[j][i], |tables[j]|)
  }

  ghost predicate LoopInput<G>(g: Group<G>, tables: seq<seq<G>>, digits: seq<seq<int>>, ps: seq<G>, len: nat) {
    && |tables| == |digits| == |ps| && Tall(digits, len)
    && forall j: nat :: j < |ps| ==> TableFits(g, tables, digits, ps, j)
  }

  /** The coefficients reached when position `i` has taken in the first `n` digits. */
  ghost predicate Reached<G>(g: Group<G>, digits: seq<seq<int>>, i: nat, n: nat, t: G, ps: seq<G>) {
    Tall(digits, i + 1) && |digits| == |ps| && t == Combination(g, Partial(digits, i, n), ps)
  }

  lemma DoubleStep<G(!new)>(g: Group<G>, digits: seq<seq<int>>, i: nat, t: G, ps: seq<G>)
    requires Abelian(g) && |digits| == |ps| && Tall(digits, i + 1)
    requires t == Combination(g, Values(digits, i + 1), ps)
    ensures Reached(g, digits, i, 0, g.add(t, t), ps)
  {
    CombinationAdd(g, Values(digits, i + 1), Values(digits, i + 1), Partial(digits, i, 0), ps);
  }

  lemma DigitStep<G(!new)>(g: Group<G>, digits: seq<seq<int>>, i: nat, n: nat, t: G, table: seq<G>, ps: seq<G>)
    requires Abelian(g) && n < |digits| && Reached(g, digits, i, n, t, ps)
    requires OddTable(g, table, ps[n]) && InTable(digits[n][i], |table|)
    ensures Reached(g, digits, i, n + 1, AddDigit(g, t, table, digits[n][i]), ps)
  {
    var d := digits[n][i];
    AddDigitCorrect(g, t, table, d, ps[n]);
    CombinationAt(g, Partial(digits, i, n), ps, n, d);
    PartialNext(digits, i, n);
  }

  /** One position: double, then add each scalar's digit. */
  method AddPosition<G(!new)>(g: Group<G>, tables: seq<seq<G>>, digits: seq<seq<int>>, i: nat, t: G, ghost ps: seq<G>,
                              ghost len: nat)
    returns (t': G)
    requires Abelian(g) && LoopInput(g, tables, digits, ps, len) && i < len
    requires t == Combination(g, Values(digits, i + 1), ps)
    ensures t' == Combination(g, Values(digits, i), ps)
  {
    DoubleStep(g, digits, i, t, ps);
    t' := g.add(t, t);
    for j := 0 to |digits|
      invariant Reached(g, digits, i, j, t', ps)
    {
      assert TableFits(g, tables, digits, ps, j);
      DigitStep(g, digits, i, j, t', tables[j], ps);
      t' := AddDigit(g, t', tables[j], digits[j][i]);
    }
    PartialDone(digits, i);
  }

  /** The loop over all positions, from the highest down. */
  method Interleaved<G(!new)>(g: Group<G>, tables: seq<seq<G>>, digits: seq<seq<int>>, len: nat, ghost ps: seq<G>)
    returns (t: G)
    requires Abelian(g) && LoopInput(g, tables, digits, ps, len) && forall j: nat :: j < |digits| ==> |digits[j]| == len
    ensures t == Combination(g, Values(digits, 0), ps)
  {
    t := g.zero;
    CombinationZero(g, Values(digits, len), ps);
    for i := len downto 0
      invariant t == Combination(g, Values(digits, i), ps)
    {
      t := AddPosition(g, tables, digits, i, t, ps, len);
    }
  }

  // ----- ecc_mul_double -----

  /** The table of P, 3P, 5P and 7P. */
  method PrecompDouble<G(!new)>(g: Group<G>, p: G) returns (table: seq<G>)
    requires Abelian(g)
    ensures |table| == 4 && OddTable(g, table, p)
  {
    var pp := g.add(p, p);
    var t1 := g.add(p, pp);
    var t2 := g.add(t1, pp);
    table := [p, t1, t2, g.add(t2, pp)];
    OddMultiples(g, p, pp, table);
  }

  lemma OddMultiples<G(!new)>(g: Group<G>, p: G, pp: G, table: seq<G>)
    requires Abelian(g) && |table| == 4 && table[0] == p && pp == g.add(p, p)
    requires forall m: nat :: m < 3 ==> table[m + 1] == g.add(table[m], pp)
    ensures OddTable(g, table, p)
  {
    assert UnitAt(g, p) && CommAt(g, g.zero, p) && Times(g, 0, p) == g.zero;
    assert Times(g, 1, p) == p && Times(g, 2, p) == pp;
    TimesAdd(g, 1, 2, p);
    TimesAdd(g, 3, 2, p);
    TimesAdd(g, 5, 2, p);
    assert table[0 + 1] == Times(g, 3, p) && table[1 + 1] == Times(g, 5, p) && table[2 + 1] == Times(g, 7, p);
  }

  /** The digits of four 64-bit scalars in windowed non-adjacent form. */
  method RecodeFour(scalars: seq<u64>, w: nat) returns (digits: seq<seq<int>>)
    requires |scalars| == 4 && (w == 4 || w == 8)
    ensures FourRecoded(digits, w, scalars)
  {
    digits := [];
    for j := 0 to 4
      invariant |digits| == j
      invariant forall i: nat :: i < j ==>
                  |digits[i]| == 65 && WnafForm(digits[i], w) && Horner(digits[i], 0) == scalars[i]
    {
      var ds := new int[65];
      WnafRecode(scalars[j], w, ds);
      digits := digits + [ds[..]];
    }
  }

  /** Digits of window `w` find their multiples in a table of 2^(w-2) odd ones. */
  lemma WnafInTable(ds: seq<int>, w: nat, size: nat)
    requires WnafWindow(w, size) && WnafForm(ds, w)
    ensures forall i: nat :: i < |ds| ==> InTable(ds[i], size)
  {
    forall i: nat | i < |ds| ensures InTable(ds[i], size) {
      assert WnafDigit(ds[i], w);
      assert Pow2(3) == 8 && Pow2(7) == 128;
    }
  }

  predicate WnafWindow(w: nat, size: nat) {
    (w == 4 && size == 4) || (w == 8 && size == 64)
  }

  /** The images of a point the decomposed scalars multiply. */
  function Images<G>(phi: G -> G, psi: G -> G, q: G): (qs: seq<G>)
    ensures |qs| == 4
  {
    [q, phi(q), psi(q), psi(phi(q))]
  }

  ghost predicate FourTables<G>(g: Group<G>, tables: seq<seq<G>>, size: nat, ps: seq<G>) {
    |tables| == |ps| == 4 && forall j: nat :: j < 4 ==> |tables[j]| == size && OddTable(g, tables[j], ps[j])
  }

  ghost predicate FourRecoded(digits: seq<seq<int>>, w: nat, scalars: seq<u64>) {
    && w >= 1 && |digits| == |scalars| == 4
    && forall j: nat :: j < 4 ==> |digits[j]| == 65 && WnafForm(digits[j], w) && Horner(digits[j], 0) == scalars[j]
  }

  method PrecompFour<G(!new)>(g: Group<G>, qs: seq<G>) returns (tables: seq<seq<G>>)
    requires Abelian(g) && |qs| == 4
    ensures FourTables(g, tables, 4, qs)
  {
    tables := [];
    for j := 0 to 4
      invariant |tables| == j && forall i: nat :: i < j ==> |tables[i]| == 4 && OddTable(g, tables[i], qs[i])
    {
      var table := PrecompDouble(g, qs[j]);
      tables := tables + [table];
    }
  }

  lemma FourFit<G(!new)>(g: Group<G>, tables: seq<seq<G>>, digits: seq<seq<int>>, ps: seq<G>, w: nat, size: nat,
                         scalars: seq<u64>)
    requires WnafWindow(w, size) && FourTables(g, tables, size, ps) && FourRecoded(digits, w, scalars)
    ensures forall j: nat :: j < 4 ==> TableFits(g, tables, digits, ps, j)
  {
    forall j: nat | j < 4 ensures TableFits(g, tables, digits, ps, j) {
      WnafInTable(digits[j], w, size);
    }
  }

  lemma EightFit<G(!new)>(g: Group<G>, ta: seq<seq<G>>, tb: seq<seq<G>>, da: seq<seq<int>>, db: seq<seq<int>>,
                          pa: seq<G>, pb: seq<G>)
    requires |ta| == |tb| == |da| == |db| == |pa| == |pb| == 4
    requires forall j: nat :: j < 4 ==> TableFits(g, ta, da, pa, j)
    requires forall j: nat :: j < 4 ==> TableFits(g, tb, db, pb, j)
    requires forall j: nat :: j < 4 ==> |da[j]| == 65 && |db[j]| == 65
    ensures LoopInput(g, ta + tb, da + db, pa + pb, 65)
    ensures forall j: nat :: j < 8 ==> |(da + db)[j]| == 65
  {
    forall j: nat | j < 8 ensures TableFits(g, ta + tb, da + db, pa + pb, j) {
      if j < 4 {
        assert TableFits(g, ta, da, pa, j);
      } else {
        assert TableFits(g, tb, db, pb, j - 4);
      }
    }
  }

  lemma EightValues(da: seq<seq<int>>, db: seq<seq<int>>, ls: seq<u64>, ks: seq<u64>)
    requires FourRecoded(da, 4, ls) && FourRecoded(db, 8, ks)
    ensures Tall(da + db, 0) && Values(da + db, 0) == Ints(ls + ks)
  {
    forall j: nat | j < 8 ensures Horner((da + db)[j][0..], 0) == (ls + ks)[j] {
      assert (da + db)[j][0..] == (da + db)[j];
    }
  }

  ghost function Ints(us: seq<u64>): (vs: seq<int>)
    ensures |vs| == |us| && forall j: nat :: j < |us| ==> vs[j] == us[j]
  {
    seq(|us|, (j: nat) requires j < |us| => us[j])
  }

  /** `ecc_mul_double` after decomposition: the combination of Q's images by `ls` and of the generator's by `ks`. */
  method InterleavedDouble<G(!new)>(g: Group<G>, phi: G -> G, psi: G -> G, ks: seq<u64>, ls: seq<u64>, q: G,
                            doubleScalarTable: seq<seq<G>>, ghost gs: seq<G>)
    returns (t: G)
    requires Abelian(g) && |ks| == |ls| == 4 && FourTables(g, doubleScalarTable, 64, gs)
    ensures t == Combination(g, Ints(ls + ks), Images(phi, psi, q) + gs)
  {
    var qs := Images(phi, psi, q);
    var dk := RecodeFour(ks, 8);
    var dl := RecodeFour(ls, 4);
    var qTables := PrecompFour(g, qs);
    FourFit(g, qTables, dl, qs, 4, 4, ls);
    FourFit(g, doubleScalarTable, dk, gs, 8, 64, ks);
    EightFit(g, qTables, doubleScalarTable, dl, dk, qs, gs);
    EightValues(dl, dk, ls, ks);
    t := Interleaved(g, qTables + doubleScalarTable, dl + dk, 65, qs + gs);
  }

  /** `ecc_mul_double`: for all 256-bit scalars, l Q plus k times the generator `gs[0]`, for points of prime order
      that the endomorphisms multiply by PHI and PSI, or whenever the basis vectors of the decomposition are
      relations between the images of either point. */
  method MulDouble<G(!new)>(g: Group<G>, phi: G -> G, psi: G -> G, k: array<u64>, l: array<u64>, q: G,
                            doubleScalarTable: seq<seq<G>>, ghost gs: seq<G>)
    returns (t: G)
    requires Abelian(g) && k.Length == l.Length == 4 && FourTables(g, doubleScalarTable, 64, gs)
    ensures t == Combination(g, SubScalars(ValAt(l, 0)) + SubScalars(ValAt(k, 0)), Images(phi, psi, q) + gs)
    ensures (Times(g, ORDER, q) == g.zero && phi(q) == Times(g, PHI, q) && psi(q) == Times(g, PSI, q)
             && psi(phi(q)) == Times(g, PSI, phi(q)) && Eigen(g, gs)) ==>
              t == g.add(Times(g, ValAt(l, 0), q), Times(g, ValAt(k, 0), gs[0]))
    ensures Related(g, Images(phi, psi, q)) && Related(g, gs) ==>
              t == g.add(Times(g, ValAt(l, 0), q), Times(g, ValAt(k, 0), gs[0]))
  {
    var ks := Decompose(k);
    var ls := Decompose(l);
    t := InterleavedDouble(g, phi, psi, ks, ls, q, doubleScalarTable, gs);
    assert Ints(ls + ks) == SubScalars(ValAt(l, 0)) + SubScalars(ValAt(k, 0));
    if Eigen(g, Images(phi, psi, q)) && Eigen(g, gs) {
      EigenRelated(g, Images(phi, psi, q));
      EigenRelated(g, gs);
    }
    if Related(g, Images(phi, psi, q)) && Related(g, gs) {
      DoubleSum(g, ValAt(k, 0), ValAt(l, 0), Images(phi, psi, q), gs);
    }
  }

  lemma DoubleSum<G(!new)>(g: Group<G>, k: int, l: int, qs: seq<G>, gs: seq<G>)
    requires Abelian(g) && Related(g, qs) && Related(g, gs)
    ensures Combination(g, SubScalars(l) + SubScalars(k), qs + gs) == g.add(Times(g, l, qs[0]), Times(g, k, gs[0]))
  {
    CombinationConcat(g, SubScalars(l), SubScalars(k), qs, gs);
    SubsSum(g, l, OddOf(l, Rounded(l)), qs);
    SubsSum(g, k, OddOf(k, Rounded(k)), gs);
  }

  // ----- ecc_mul -----

  /** The coefficients of table entry `u`: 1 and the three bits of `u`. */
  function EntryCoefficients(u: nat): (cs: seq<int>)
    requires u < 8
    ensures |cs| == 4
  {
    [1, u % 2, (u / 2) % 2, (u / 4) % 2]
  }

  ghost predicate EntryOk<G>(g: Group<G>, table: seq<G>, ps: seq<G>, u: nat)
    requires |table| == 8 && |ps| == 4 && u < 8
  {
    table[u] == Combination(g, EntryCoefficients(u), ps)
  }

  ghost predicate FourTable<G>(g: Group<G>, table: seq<G>, ps: seq<G>) {
    |table| == 8 && |ps| == 4 && forall u: nat :: u < 8 ==> EntryOk(g, table, ps, u)
  }

  /** Multiplication by the cofactor 392. */
  method CofactorClearing<G(!new)>(g: Group<G>, p: G) returns (r: G)
    requires Abelian(g)
    ensures r == Times(g, 392, p)
  {
    TimesOne(g, p);
    TimesAdd(g, 1, 1, p);
    r := g.add(p, p);
    TimesAdd(g, 2, 1, p);
    r := g.add(r, p);
    r := DoubleRun(g, p, r, 3, 4);
    TimesAdd(g, 48, 1, p);
    r := g.add(r, p);
    r := DoubleRun(g, p, r, 49, 3);
  }

  /** `n` doublings in a row. */
  method DoubleRun<G(!new)>(g: Group<G>, ghost p: G, r0: G, ghost m: int, n: nat) returns (r: G)
    requires Abelian(g) && r0 == Times(g, m, p)
    ensures r == Times(g, Shift(m, n), p)
  {
    r := r0;
    for i := 0 to n
      invariant r == Times(g, Shift(m, i), p)
    {
      TimesAdd(g, Shift(m, i), Shift(m, i), p);
      r := g.add(r, r);
    }
  }

  lemma TimesOne<G(!new)>(g: Group<G>, p: G)
    requires Abelian(g)
    ensures Times(g, 1, p) == p && Times(g, 0, p) == g.zero
  {
    assert UnitAt(g, p) && CommAt(g, g.zero, p) && Times(g, 0, p) == g.zero;
  }

  /** Adding point `j` to an entry gives the entry with bit `j` set. */
  lemma EntryNext<G(!new)>(g: Group<G>, table: seq<G>, ps: seq<G>, u: nat, m: nat, j: nat)
    requires Abelian(g) && |table| == 8 && |ps| == 4 && u < m
    requires (m == 1 && j == 1) || (m == 2 && j == 2) || (m == 4 && j == 3)
    requires EntryOk(g, table, ps, u) && table[u + m] == g.add(table[u], ps[j])
    ensures EntryOk(g, table, ps, u + m)
  {
    var cs := EntryCoefficients(u);
    assert EntryCoefficients(u + m) == cs[j := cs[j] + 1];
    CombinationAt(g, cs, ps, j, 1);
    TimesOne(g, ps[j]);
  }

  lemma EntryZero<G(!new)>(g: Group<G>, ps: seq<G>)
    requires Abelian(g) && |ps| == 4
    ensures Combination(g, EntryCoefficients(0), ps) == ps[0]
  {
    CombinationZero(g, [0, 0, 0, 0], ps);
    assert [0, 0, 0, 0][0 := 0 + 1] == EntryCoefficients(0);
    CombinationAt(g, [0, 0, 0, 0], ps, 0, 1);
    TimesOne(g, ps[0]);
    assert UnitAt(g, ps[0]) && CommAt(g, g.zero, ps[0]);
  }

  /** The eight sums of P with subsets of its images. */
  method Precomp<G(!new)>(g: Group<G>, ps: seq<G>) returns (table: seq<G>)
    requires Abelian(g) && |ps| == 4
    ensures FourTable(g, table, ps)
  {
    var t0 := ps[0];
    var t1 := g.add(t0, ps[1]);
    var t2 := g.add(t0, ps[2]);
    var t3 := g.add(t1, ps[2]);
    table := [t0, t1, t2, t3, g.add(t0, ps[3]), g.add(t1, ps[3]), g.add(t2, ps[3]), g.add(t3, ps[3])];
    EntryZero(g, ps);
    EntriesCorrect(g, ps, table);
  }

  lemma EntriesCorrect<G(!new)>(g: Group<G>, ps: seq<G>, table: seq<G>)
    requires Abelian(g) && |ps| == 4 && |table| == 8 && EntryOk(g, table, ps, 0)
    requires table[1] == g.add(table[0], ps[1]) && table[2] == g.add(table[0], ps[2])
    requires table[3] == g.add(table[1], ps[2])
    requires table[4] == g.add(table[0], ps[3]) && table[5] == g.add(table[1], ps[3])
    requires table[6] == g.add(table[2], ps[3]) && table[7] == g.add(table[3], ps[3])
    ensures FourTable(g, table, ps)
  {
    EntryNext(g, table, ps, 0, 1, 1);
    EntryNext(g, table, ps, 0, 2, 2);
    EntryNext(g, table, ps, 1, 2, 2);
    UpperEntries(g, ps, table);
  }

  lemma UpperEntries<G(!new)>(g: Group<G>, ps: seq<G>, table: seq<G>)
    requires Abelian(g) && |ps| == 4 && |table| == 8 && forall u: nat :: u < 4 ==> EntryOk(g, table, ps, u)
    requires forall u: nat :: u < 4 ==> table[u + 4] == g.add(table[u], ps[3])
    ensures FourTable(g, table, ps)
  {
    forall u: nat | u < 8 ensures EntryOk(g, table, ps, u) {
      if u >= 4 {
        assert table[(u - 4) + 4] == g.add(table[u - 4], ps[3]);
        EntryNext(g, table, ps, u - 4, 4, 3);
      }
    }
  }

  /** The negated table. */
  method Negated<G>(g: Group<G>, table: seq<G>) returns (negated: seq<G>)
    ensures |negated| == |table| && forall u: nat :: u < |table| ==> negated[u] == g.neg(table[u])
  {
    negated := [];
    for i := 0 to |table|
      invariant |negated| == i && forall u: nat :: u < i ==> negated[u] == g.neg(table[u])
    {
      negated := negated + [g.neg(table[i])];
    }
  }

  /** A recoded quadruple: common signs, three bits per digit, and the bits left on top. */
  datatype FourCode = FourCode(masks: seq<int>, digits: seq<int>, top: seq<int>)

  ghost predicate CodeOk(c: FourCode) {
    && |c.masks| == |c.digits| == 64 && |c.top| == 4
    && (forall i: nat :: i < 64 ==> 0 <= c.masks[i] <= 1 && 0 <= c.digits[i] <= 7)
    && (forall j: nat :: j < 4 ==> 0 <= c.top[j] <= 1) && c.top[0] == 1
  }

  /** Sub-scalar `j` from position `i` up. */
  ghost function SubValue(c: FourCode, j: nat, i: nat): int
    requires CodeOk(c) && j < 4 && i <= 64
  {
    if j == 0 then Horner(Signs(c.masks, 64)[i..], 1)
    else Horner(SubDigits(c.masks, c.digits, j, 64)[i..], c.top[j])
  }

  ghost function FourValue(c: FourCode, i: nat): (vs: seq<int>)
    requires CodeOk(c) && i <= 64
    ensures |vs| == 4
  {
    [SubValue(c, 0, i), SubValue(c, 1, i), SubValue(c, 2, i), SubValue(c, 3, i)]
  }

  function Scaled(s: int, cs: seq<int>): (vs: seq<int>)
    requires |cs| == 4
    ensures |vs| == 4
  {
    [s * cs[0], s * cs[1], s * cs[2], s * cs[3]]
  }

  lemma SubValueStep(c: FourCode, j: nat, i: nat)
    requires CodeOk(c) && j < 4 && i < 64
    ensures SubValue(c, j, i)
              == 2 * SubValue(c, j, i + 1) + Scaled(MaskSign(c.masks[i]), EntryCoefficients(c.digits[i]))[j]
  {
    var ds := if j == 0 then Signs(c.masks, 64) else SubDigits(c.masks, c.digits, j, 64);
    assert ds[i..][1..] == ds[i + 1..] && ds[i..][0] == ds[i];
  }

  lemma CombinationNeg<G(!new)>(g: Group<G>, cs: seq<int>, ps: seq<G>)
    requires Abelian(g) && |cs| == |ps| == 4
    ensures Combination(g, Scaled(-1, cs), ps) == g.neg(Combination(g, cs, ps))
  {
    var x, y := Combination(g, cs, ps), Combination(g, Scaled(-1, cs), ps);
    CombinationAdd(g, cs, Scaled(-1, cs), [0, 0, 0, 0], ps);
    CombinationZero(g, [0, 0, 0, 0], ps);
    assert CommAt(g, x, y) && CommAt(g, x, g.neg(x)) && UnitAt(g, x);
    SameSum(g, y, g.neg(x), x);
  }

  /** One step of the loop: double, then add the entry of the digit under the common sign. */
  lemma FourWayStep<G(!new)>(g: Group<G>, c: FourCode, i: nat, t: G, entry: G, ps: seq<G>)
    requires Abelian(g) && CodeOk(c) && i < 64 && |ps| == 4 && t == Combination(g, FourValue(c, i + 1), ps)
    requires entry == Combination(g, Scaled(MaskSign(c.masks[i]), EntryCoefficients(c.digits[i])), ps)
    ensures g.add(g.add(t, t), entry) == Combination(g, FourValue(c, i), ps)
  {
    var vs, es := FourValue(c, i + 1), Scaled(MaskSign(c.masks[i]), EntryCoefficients(c.digits[i]));
    var twice := [2 * vs[0], 2 * vs[1], 2 * vs[2], 2 * vs[3]];
    CombinationAdd(g, vs, vs, twice, ps);
    SubValueStep(c, 0, i);
    SubValueStep(c, 1, i);
    SubValueStep(c, 2, i);
    SubValueStep(c, 3, i);
    CombinationAdd(g, twice, es, FourValue(c, i), ps);
  }

  lemma EntrySigned<G(!new)>(g: Group<G>, c: FourCode, i: nat, plus: seq<G>, minus: seq<G>, ps: seq<G>)
    requires Abelian(g) && CodeOk(c) && i < 64 && FourTable(g, plus, ps) && |minus| == 8
    requires forall u: nat :: u < 8 ==> minus[u] == g.neg(plus[u])
    ensures (if c.masks[i] == 1 then plus else minus)[c.digits[i]]
         == Combination(g, Scaled(MaskSign(c.masks[i]), EntryCoefficients(c.digits[i])), ps)
  {
    var u: nat := c.digits[i];
    var cs := EntryCoefficients(u);
    CombinationNeg(g, cs, ps);
    assert EntryOk(g, plus, ps, u);
    assert Scaled(1, cs) == cs;
  }

  /** The loop of `ecc_mul`. */
  method FourWayLoop<G(!new)>(g: Group<G>, table: seq<G>, c: FourCode, ghost ps: seq<G>) returns (t: G)
    requires Abelian(g) && CodeOk(c) && FourTable(g, table, ps)
    ensures t == Combination(g, FourValue(c, 0), ps)
  {
    var minus := Negated(g, table);
    var top := c.top[1] + 2 * c.top[2] + 4 * c.top[3];
    assert EntryCoefficients(top) == FourValue(c, 64) && EntryOk(g, table, ps, top);
    t := table[top];
    for i := 64 downto 0
      invariant t == Combination(g, FourValue(c, i), ps)
    {
      EntrySigned(g, c, i, table, minus, ps);
      var entry := (if c.masks[i] == 1 then table else minus)[c.digits[i]];
      FourWayStep(g, c, i, t, entry, ps);
      t := g.add(g.add(t, t), entry);
    }
  }

  /** `ecc_mul` after decomposition: the combination of the images of 392 P by the sub-scalars. */
  method MulDecomposed<G(!new)>(g: Group<G>, phi: G -> G, psi: G -> G, p: G, scalars: array<u64>) returns (t: G)
    requires Abelian(g) && scalars.Length == 4 && scalars[0] % 2 == 1
    modifies scalars
    ensures t == Combination(g, Ints(old(scalars[..])), Images(phi, psi, Times(g, 392, p)))
  {
    ghost var ks := scalars[..];
    var r := CofactorClearing(g, p);
    var digits, masks := new int[64], new int[64];
    FourWayRecode(scalars, digits, masks);
    var table := Precomp(g, Images(phi, psi, r));
    var c := FourCode(masks[..], digits[..], [1, scalars[1], scalars[2], scalars[3]]);
    t := FourWayLoop(g, table, c, Images(phi, psi, r));
    FourValueWhole(c, ks);
  }

  /** `ecc_mul`: for every 256-bit scalar, k times 392 P, if 392 P has prime order and the endomorphisms multiply it
      by PHI and PSI, or whenever the basis vectors of the decomposition are relations between its images. */
  method MulVariable<G(!new)>(g: Group<G>, phi: G -> G, psi: G -> G, p: G, k: array<u64>) returns (t: G)
    requires Abelian(g) && k.Length == 4
    ensures t == Combination(g, SubScalars(ValAt(k, 0)), Images(phi, psi, Times(g, 392, p)))
    ensures var q := Times(g, 392, p);
            (Times(g, ORDER, q) == g.zero && phi(q) == Times(g, PHI, q) && psi(q) == Times(g, PSI, q)
             && psi(phi(q)) == Times(g, PSI, phi(q))) ==> t == Times(g, ValAt(k, 0), q)
    ensures Related(g, Images(phi, psi, Times(g, 392, p))) ==> t == Times(g, ValAt(k, 0), Times(g, 392, p))
  {
    var ks := Decompose(k);
    var scalars := new u64[4](i requires 0 <= i < 4 => ks[i]);
    assert Ints(scalars[..]) == SubScalars(ValAt(k, 0));
    t := MulDecomposed(g, phi, psi, p, scalars);
    if Eigen(g, Images(phi, psi, Times(g, 392, p))) {
      EigenRelated(g, Images(phi, psi, Times(g, 392, p)));
    }
    if Related(g, Images(phi, psi, Times(g, 392, p))) {
      ghost var n := ValAt(k, 0);
      SubsSum(g, n, OddOf(n, Rounded(n)), Images(phi, psi, Times(g, 392, p)));
    }
  }

  lemma FourValueWhole(c: FourCode, ks: seq<u64>)
    requires CodeOk(c) && |ks| == 4 && Horner(Signs(c.masks, 64), 1) == ks[0]
    requires forall j: nat :: 1 <= j < 4 ==> Horner(SubDigits(c.masks, c.digits, j, 64), c.top[j]) == ks[j]
    ensures FourValue(c, 0) == Ints(ks)
  {
    assert Signs(c.masks, 64)[0..] == Signs(c.masks, 64);
    forall j: nat | 1 <= j < 4 ensures SubValue(c, j, 0) == ks[j] {
      assert SubDigits(c.masks, c.digits, j, 64)[0..] == SubDigits(c.masks, c.digits, j, 64);
    }
  }
}
