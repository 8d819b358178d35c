/** Multiples and linear combinations in an abelian group given by its operations. */
module GroupSums {

  datatype Group<!G> = Group(zero: G, add: (G, G) -> G, neg: G -> G)

  // ----- The group laws, each at given points -----

  ghost predicate AssocAt<G>(g: Group<G>, x: G, y: G, z: G) {
    g.add(g.add(x, y), z) == g.add(x, g.add(y, z))
  }

  ghost predicate CommAt<G>(g: Group<G>, x: G, y: G) {
    g.add(x, y) == g.add(y, x)
  }

  ghost predicate UnitAt<G>(g: Group<G>, x: G) {
    g.add(x, g.zero) == x && g.add(x, g.neg(x)) == g.zero
  }

  ghost predicate Abelian<G(!new)>(g: Group<G>) {
    && (forall x, y, z :: AssocAt(g, x, y, z))
    && (forall x, y :: CommAt(g, x, y))
    && (forall x :: UnitAt(g, x))
  }

  lemma Swap<G(!new)>(g: Group<G>, a: G, b: G, c: G, d: G)
    requires Abelian(g)
    ensures g.add(g.add(a, b), g.add(c, d)) == g.add(g.add(a, c), g.add(b, d))
  {
    assert AssocAt(g, a, b, g.add(c, d)) && AssocAt(g, b, c, d) && CommAt(g, b, c);
    assert AssocAt(g, c, b, d) && AssocAt(g, a, c, g.add(b, d));
  }

  lemma Cancel<G(!new)>(g: Group<G>, x: G, y: G)
    requires Abelian(g)
    ensures g.add(g.add(x, g.neg(y)), y) == x && g.add(g.add(x, y), g.neg(y)) == x
  {
    assert AssocAt(g, x, g.neg(y), y) && CommAt(g, g.neg(y), y) && AssocAt(g, x, y, g.neg(y));
    assert UnitAt(g, y) && UnitAt(g, x);
  }

  /** An element is determined by its sum with another. */
  lemma SameSum<G(!new)>(g: Group<G>, x: G, y: G, z: G)
    requires Abelian(g) && g.add(x, z) == g.add(y, z)
    ensures x == y
  {
    Cancel(g, x, z);
    Cancel(g, y, z);
  }

  // ----- Multiples -----

  /** The `n`-fold multiple of `x`, for any integer `n`. */
  ghost function Times<G>(g: Group<G>, n: int, x: G): G
    decreases if n < 0 then 1 else 0, if n < 0 then -n else n
  {
    if n == 0 then g.zero
    else if n > 0 then g.add(Times(g, n - 1, x), x)
    else g.neg(Times(g, -n, x))
  }

  lemma TimesNext<G(!new)>(g: Group<G>, n: int, x: G)
    requires Abelian(g)
    ensures Times(g, n + 1, x) == g.add(Times(g, n, x), x)
  {
    if n < 0 {
      var m := -n;
      var y := Times(g, m - 1, x);
      var t := Times(g, n, x);
      assert Times(g, m, x) == g.add(y, x);
      assert t == g.neg(Times(g, m, x));
      assert Times(g, n + 1, x) == if m == 1 then g.zero else g.neg(y);
      NegUnique(g, y, g.add(t, x), t, x);
      ZeroNeg(g);
    }
  }

  /** If `t` is minus `y + x` then `t + x` is minus `y`. */
  lemma NegUnique<G(!new)>(g: Group<G>, y: G, s: G, t: G, x: G)
    requires Abelian(g) && t == g.neg(g.add(y, x)) && s == g.add(t, x)
    ensures s == g.neg(y)
  {
    var z := g.add(y, x);
    assert g.add(s, y) == g.zero by {
      assert AssocAt(g, t, x, y) && CommAt(g, x, y) && CommAt(g, t, z) && UnitAt(g, z);
    }
    assert g.add(g.neg(y), y) == g.zero by { assert CommAt(g, g.neg(y), y) && UnitAt(g, y); }
    SameSum(g, s, g.neg(y), y);
  }

  lemma ZeroNeg<G(!new)>(g: Group<G>)
    requires Abelian(g)
    ensures g.neg(g.zero) == g.zero
  {
    assert UnitAt(g, g.zero) && CommAt(g, g.zero, g.neg(g.zero)) && UnitAt(g, g.neg(g.zero));
  }

  lemma {:induction false} TimesAdd<G(!new)>(g: Group<G>, m: int, n: int, x: G)
    requires Abelian(g)
    ensures Times(g, m + n, x) == g.add(Times(g, m, x), Times(g, n, x))
    decreases if n < 0 then -n else n
  {
    if n == 0 {
      assert UnitAt(g, Times(g, m, x));
    } else if n > 0 {
      TimesAdd(g, m, n - 1, x);
      TimesNext(g, m + n - 1, x);
      assert AssocAt(g, Times(g, m, x), Times(g, n - 1, x), x);
    } else {
      TimesAdd(g, m, n + 1, x);
      TimesNext(g, m + n, x);
      TimesNext(g, n, x);
      assert AssocAt(g, Times(g, m, x), Times(g, n, x), x);
      SameSum(g, Times(g, m + n, x), g.add(Times(g, m, x), Times(g, n, x)), x);
    }
  }

  lemma TimesNeg<G(!new)>(g: Group<G>, n: int, x: G)
    requires Abelian(g)
    ensures Times(g, -n, x) == g.neg(Times(g, n, x))
  {
    TimesAdd(g, n, -n, x);
    var y := Times(g, n, x);
    assert CommAt(g, y, Times(g, -n, x)) && CommAt(g, y, g.neg(y)) && UnitAt(g, y);
    SameSum(g, Times(g, -n, x), g.neg(y), y);
  }

  lemma {:induction false} TimesZero<G(!new)>(g: Group<G>, n: nat)
    requires Abelian(g)
    ensures Times(g, n, g.zero) == g.zero
  {
    if n > 0 {
      TimesZero(g, n - 1);
      assert UnitAt(g, g.zero);
    }
  }

  /** A multiple of a multiple. */
  lemma {:induction false} TimesNat<G(!new)>(g: Group<G>, m: nat, n: int, x: G)
    requires Abelian(g)
    ensures Times(g, m, Times(g, n, x)) == Times(g, m * n, x)
  {
    if m > 0 {
      TimesNat(g, m - 1, n, x);
      TimesAdd(g, (m - 1) * n, n, x);
      assert (m - 1) * n + n == m * n;
    }
  }

  lemma {:induction false} TimesTimes<G(!new)>(g: Group<G>, m: int, n: int, x: G)
    requires Abelian(g)
    ensures Times(g, m, Times(g, n, x)) == Times(g, m * n, x)
  {
    if m >= 0 {
      TimesNat(g, m, n, x);
    } else {
      TimesNat(g, -m, n, x);
      TimesNeg(g, -m * n, x);
      assert -(-m * n) == m * n;
    }
  }

  /** A multiple of an annihilator gives zero. */
  lemma TimesAnnihilated<G(!new)>(g: Group<G>, m: int, n: int, x: G)
    requires Abelian(g) && Times(g, n, x) == g.zero
    ensures Times(g, m * n, x) == g.zero
  {
    TimesTimes(g, m, n, x);
    TimesZero(g, if m < 0 then -m else m);
    ZeroNeg(g);
  }

  // ----- Linear combinations -----

  /** The sum of `cs[j]` times `ps[j]`. */
  ghost function Combination<G>(g: Group<G>, cs: seq<int>, ps: seq<G>): G
    requires |cs| == |ps|
  {
    if cs == [] then g.zero
    else g.add(Combination(g, cs[..|cs| - 1], ps[..|ps| - 1]), Times(g, cs[|cs| - 1], ps[|ps| - 1]))
  }

  ghost predicate SumOfSeqs(a: seq<int>, b: seq<int>, c: seq<int>) {
    |a| == |b| == |c| && forall j: nat :: j < |a| ==> c[j] == a[j] + b[j]
  }

  lemma {:induction false} CombinationAdd<G(!new)>(g: Group<G>, a: seq<int>, b: seq<int>, c: seq<int>, ps: seq<G>)
    requires Abelian(g) && SumOfSeqs(a, b, c) && |a| == |ps|
    ensures Combination(g, c, ps) == g.add(Combination(g, a, ps), Combination(g, b, ps))
  {
    var n := |ps| - 1;
    if n < 0 {
      assert UnitAt(g, g.zero);
    } else {
      var qs := ps[..n];
      CombinationAdd(g, a[..n], b[..n], c[..n], qs);
      TimesAdd(g, a[n], b[n], ps[n]);
      Swap(g, Combination(g, a[..n], qs), Combination(g, b[..n], qs), Times(g, a[n], ps[n]), Times(g, b[n], ps[n]));
    }
  }

  lemma {:induction false} CombinationZero<G(!new)>(g: Group<G>, a: seq<int>, ps: seq<G>)
    requires Abelian(g) && |a| == |ps| && forall j: nat :: j < |a| ==> a[j] == 0
    ensures Combination(g, a, ps) == g.zero
  {
    if a != [] {
      CombinationZero(g, a[..|a| - 1], ps[..|ps| - 1]);
      assert UnitAt(g, g.zero);
    }
  }

  /** One coefficient more or less. */
  lemma {:induction false} CombinationAt<G(!new)>(g: Group<G>, a: seq<int>, ps: seq<G>, j: nat, d: int)
    requires Abelian(g) && |a| == |ps| && j < |a|
    ensures Combination(g, a[j := a[j] + d], ps) == g.add(Combination(g, a, ps), Times(g, d, ps[j]))
  {
    var n := |a| - 1;
    var a' := a[j := a[j] + d];
    var x, y, z := Combination(g, a[..n], ps[..n]), Times(g, a[n], ps[n]), Times(g, d, ps[j]);
    if j == n {
      assert a'[..n] == a[..n];
      TimesAdd(g, a[n], d, ps[n]);
      assert AssocAt(g, x, y, z);
    } else {
      assert a'[..n] == a[..n][j := a[j] + d] && ps[..n][j] == ps[j];
      CombinationAt(g, a[..n], ps[..n], j, d);
      assert AssocAt(g, x, z, y) && CommAt(g, z, y) && AssocAt(g, x, y, z);
    }
  }

  lemma {:induction false} CombinationConcat<G(!new)>(g: Group<G>, a: seq<int>, b: seq<int>, ps: seq<G>, qs: seq<G>)
    requires Abelian(g) && |a| == |ps| && |b| == |qs|
    ensures Combination(g, a + b, ps + qs) == g.add(Combination(g, a, ps), Combination(g, b, qs))
  {
    if b == [] {
      assert a + b == a && ps + qs == ps && UnitAt(g, Combination(g, a, ps));
    } else {
      var n := |b| - 1;
      var c, rs := a + b, ps + qs;
      assert c[..|c| - 1] == a + b[..n] && rs[..|rs| - 1] == ps + qs[..n];
      CombinationConcat(g, a, b[..n], ps, qs[..n]);
      assert AssocAt(g, Combination(g, a, ps), Combination(g, b[..n], qs[..n]), Times(g, b[n], qs[n]));
    }
  }

  /** The sum of the products of two lists. */
  function Dot(a: seq<int>, b: seq<int>): int
    requires |a| == |b|
  {
    if a == [] then 0 else Dot(a[..|a| - 1], b[..|b| - 1]) + a[|a| - 1] * b[|b| - 1]
  }

  lemma DotFour(a: seq<int>, b: seq<int>)
    requires |a| == |b| == 4
    ensures Dot(a, b) == a[0] * b[0] + a[1] * b[1] + a[2] * b[2] + a[3] * b[3]
  {
    assert a[..3][..2] == a[..2] && b[..3][..2] == b[..2];
    assert a[..2][..1] == a[..1] && b[..2][..1] == b[..1];
    assert a[..1][..0] == [] && b[..1][..0] == [];
    assert Dot(a[..1], b[..1]) == a[0] * b[0];
    assert Dot(a[..2], b[..2]) == Dot(a[..1], b[..1]) + a[1] * b[1];
    assert Dot(a[..3], b[..3]) == Dot(a[..2], b[..2]) + a[2] * b[2];
  }

  /** A combination of multiples of one point is a multiple of it. */
  lemma {:induction false} CombinationMultiples<G(!new)>(g: Group<G>, cs: seq<int>, ns: seq<int>, x: G, ps: seq<G>)
    requires Abelian(g) && |cs| == |ns| == |ps| && forall j: nat :: j < |ps| ==> ps[j] == Times(g, ns[j], x)
    ensures Combination(g, cs, ps) == Times(g, Dot(cs, ns), x)
  {
    if cs != [] {
      var n := |cs| - 1;
      CombinationMultiples(g, cs[..n], ns[..n], x, ps[..n]);
      TimesTimes(g, cs[n], ns[n], x);
      TimesAdd(g, Dot(cs[..n], ns[..n]), cs[n] * ns[n], x);
    }
  }
}
