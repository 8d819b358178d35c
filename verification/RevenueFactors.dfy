/** Quorum score, revenue factors and payouts. Variables of type `u64` hold what the source keeps in
    64 bits: every value assigned to one is shown to fit, or wrapped where the source does not check. */
module RevenueFactors {
  import opened Limbs
  import opened TopK

  const MAX_U64: nat := 0xFFFF_FFFF_FFFF_FFFF
  const SCALE: nat := 1024
  const BONUS_CAP: nat := 256
  const W_TX: nat := 17
  const W_ORACLE: nat := 3
  const DIVISOR: nat := 0x5000_0000

  // ----- getQuorumScore -----

  /** Moves the last element up to its place in a descending array. */
  method InsertLast(sorted: array<u64>, ghost top: seq<nat>) returns (ghost i: nat)
    requires sorted.Length >= 2 && sorted[..] == top + [sorted[sorted.Length - 1]]
    modifies sorted
    ensures i <= |top| && sorted[..] == top[..i] + [old(sorted[sorted.Length - 1])] + top[i..]
    ensures (i == 0 || top[i - 1] >= old(sorted[sorted.Length - 1]))
    ensures forall j: nat :: i <= j < |top| ==> top[j] < old(sorted[sorted.Length - 1])
    ensures sorted.Length == |top| + 1
  {
    ghost var x := sorted[sorted.Length - 1];
    var k := sorted.Length - 1;
    while k > 0 && sorted[k - 1] < sorted[k]
      invariant 0 <= k <= |top| && sorted[k] == x && (forall j: nat :: k <= j < |top| ==> top[j] < x)
      invariant forall j: nat :: j < k ==> sorted[j] == top[j]
      invariant forall j: nat :: k < j <= |top| ==> sorted[j] == top[j - 1]
    {
      assert sorted[k - 1] == top[k - 1];
      sorted[k - 1], sorted[k] := sorted[k], sorted[k - 1];
      k := k - 1;
    }
    i := k;
    assert sorted[..] == top[..i] + [x] + top[i..];
  }

  /** max(1, the quorum-th largest score): a value of at least 2 is reached by `quorum` scores
      exactly when it does not exceed the result. */
  method QuorumScore(score: seq<u64>, quorum: nat, maxQuorum: nat) returns (r: u64)
    ensures r >= 1
    ensures quorum == 0 || quorum > maxQuorum ==> r == 1
    ensures 1 <= quorum <= maxQuorum ==> IsQuorumScore(score, quorum, r)
  {
    if quorum == 0 || quorum > maxQuorum {
      return 1;
    }
    var sortedScore := new u64[quorum + 1](_ => 0);
    StartTop(sortedScore[..quorum]);
    for c := 0 to |score|
      invariant IsTop(sortedScore[..quorum], score[..c])
    {
      ghost var top := sortedScore[..quorum];
      sortedScore[quorum] := score[c];
      assert sortedScore[..] == top + [score[c]];
      ghost var i := InsertLast(sortedScore, top);
      TopStep(top, score[..c], score[c], i, sortedScore[..]);
      assert score[..c + 1] == score[..c] + [score[c]] && sortedScore[..quorum] == sortedScore[..][..quorum];
    }
    assert score[..|score|] == score;
    TopLast(sortedScore[..quorum], score);
    if sortedScore[quorum - 1] == 0 {
      sortedScore[quorum - 1] := 1;
    }
    r := sortedScore[quorum - 1];
  }

  ghost predicate IsQuorumScore(score: seq<nat>, quorum: nat, r: nat) {
    r >= 1 && forall v: nat :: v >= 2 ==> (AtLeast(score, v) >= quorum <==> v <= r)
  }

  lemma TopLast(top: seq<nat>, score: seq<nat>)
    requires top != [] && IsTop(top, score)
    ensures IsQuorumScore(score, |top|, if top[|top| - 1] == 0 then 1 else top[|top| - 1])
  {
    forall v: nat | v >= 2 ensures AtLeast(score, v) >= |top| <==> v <= top[|top| - 1] {
      assert CountsAgree(top, score, v);
      AtLeastFull(top, v);
    }
  }

  /** As set sizes: `quorum` computors reach a value of at least 2 exactly if it does not exceed the quorum score. */
  lemma QuorumReaches(score: seq<nat>, quorum: nat, r: nat, v: nat)
    requires IsQuorumScore(score, quorum, r) && v >= 2
    ensures |set i: nat | i < |score| && score[i] >= v| >= quorum <==> v <= r
  {
    AtLeastIsSize(score, v);
    var n := AtLeast(score, v);
  }

  /** The quorum score is the only value that meets its description. */
  lemma QuorumScoreUnique(score: seq<nat>, quorum: nat, r: nat, r': nat)
    requires IsQuorumScore(score, quorum, r) && IsQuorumScore(score, quorum, r')
    ensures r == r'
  {
    var n, n' := AtLeast(score, r), AtLeast(score, r');
  }

  // ----- computeRevFactor -----

  function Factor(score: nat, threshold: nat, quorumScore: nat): (f: nat)
    requires quorumScore >= 1
    ensures f <= threshold
  {
    if score == 0 then 0
    else if score >= quorumScore then threshold
    else Quotient(threshold, score, quorumScore); threshold * score / quorumScore
  }

  lemma Quotient(a: nat, b: nat, c: nat)
    requires b < c
    ensures a * b / c <= a && (a > 0 ==> a * b / c < a)
  {
    assert a * b <= a * c;
    if a > 0 { assert a * b < a * c; }
    DivBelow(a * b, c, a);
  }

  lemma DivBelow(x: nat, c: nat, a: nat)
    requires c > 0
    ensures x < a * c ==> x / c < a
    ensures x <= a * c ==> x / c <= a
  {
    assert x == c * (x / c) + x % c;
    var q := x / c;
    if q >= a + 1 { assert c * q >= c * (a + 1); }
    if q >= a { assert c * q >= c * a; }
  }

  lemma {:induction false} DivMonotone(x: nat, y: nat, c: nat)
    requires c > 0 && x <= y
    ensures x / c <= y / c
  {
    var q := y / c;
    assert y == c * q + y % c;
    assert y < (q + 1) * c;
    DivBelow(x, c, q + 1);
  }

  /** The full factor goes exactly to the nonzero scores that reach the quorum score. */
  lemma FactorFull(score: nat, threshold: nat, quorumScore: nat)
    requires quorumScore >= 1 && threshold > 0
    ensures Factor(score, threshold, quorumScore) == threshold <==> score != 0 && score >= quorumScore
  {
    if 0 < score < quorumScore { Quotient(threshold, score, quorumScore); }
  }

  /** Below the quorum score the factor is the share of the threshold that the score is of the quorum score. */
  lemma FactorShare(score: nat, threshold: nat, quorumScore: nat)
    requires 0 < score < quorumScore
    ensures var f := Factor(score, threshold, quorumScore);
            f * quorumScore <= threshold * score < (f + 1) * quorumScore
  {
    var f := Factor(score, threshold, quorumScore);
    assert threshold * score == quorumScore * f + threshold * score % quorumScore;
  }

  lemma {:induction false} FactorMonotone(a: nat, b: nat, threshold: nat, quorumScore: nat)
    requires quorumScore >= 1 && a <= b
    ensures Factor(a, threshold, quorumScore) <= Factor(b, threshold, quorumScore)
  {
    if 0 < b < quorumScore {
      assert threshold * a <= threshold * b;
      DivMonotone(threshold * a, threshold * b, quorumScore);
    }
  }

  /** The factor as the code computes it: the product of threshold and score is kept in 64 bits. */
  function CodeFactor(score: nat, threshold: nat, quorumScore: nat): (f: nat)
    requires quorumScore >= 1
  {
    if score == 0 then 0
    else if score >= quorumScore then threshold
    else Wrap(threshold * score) / quorumScore
  }

  /** A concrete score whose product wraps: 2^54 of 2^54 + 1, and the factor is 0 instead of 1023. */
  lemma FactorWraps()
    ensures CodeFactor(0x40_0000_0000_0000, SCALE, 0x40_0000_0000_0001) == 0
    ensures Factor(0x40_0000_0000_0000, SCALE, 0x40_0000_0000_0001) == 1023
  {
  }

  /** The source asserts that the product fits into 64 bits. */
  lemma FactorFits(score: nat, threshold: nat)
    requires threshold > 0
    ensures MAX_U64 / threshold >= score <==> threshold * score <= MAX_U64
  {
    var q := MAX_U64 / threshold;
    assert MAX_U64 == threshold * q + MAX_U64 % threshold;
    if score <= q {
      Products(threshold, score, threshold, q);
    } else {
      Products(threshold, q + 1, threshold, score);
    }
  }

  /** The computed factor is the promised one exactly if the score reaches the quorum score or the asserted bound
      holds; it never exceeds the threshold. */
  lemma FactorExact(score: nat, threshold: nat, quorumScore: nat)
    requires 1 <= quorumScore <= MAX_U64
    ensures CodeFactor(score, threshold, quorumScore) == Factor(score, threshold, quorumScore)
       <==> score >= quorumScore || threshold * score <= MAX_U64
    ensures CodeFactor(score, threshold, quorumScore) <= threshold
  {
    if 0 < score < quorumScore {
      var x := threshold * score;
      WrapSmaller(x, quorumScore);
      Quotient(threshold, score, quorumScore);
    } else if score == 0 {
      assert threshold * score == 0;
    }
  }

  /** Wrapping changes a quotient exactly if it changes the number. */
  lemma WrapSmaller(x: nat, c: nat)
    requires 1 <= c <= MAX_U64
    ensures Wrap(x) / c <= x / c && (Wrap(x) / c == x / c <==> x <= MAX_U64)
  {
    var w := Wrap(x);
    DivMonotone(w, x, c);
    if x > MAX_U64 {
      assert w + c <= x;
      DivNext(w, c);
      DivMonotone(w + c, x, c);
    }
  }

  lemma DivNext(x: nat, c: nat)
    requires c > 0
    ensures (x + c) / c == x / c + 1
  {
    var q := x / c;
    assert x == c * q + x % c;
    assert q * c <= x < (q + 1) * c;
    DivIs(x + c, c, q + 1);
  }

  lemma DivIs(x: nat, c: nat, q: nat)
    requires c > 0 && q * c <= x < (q + 1) * c
    ensures x / c == q
  {
    DivBelow(x, c, q + 1);
    var p := x / c;
    assert x == c * p + x % c;
    assert x < (p + 1) * c;
    assert p + 1 <= q ==> (p + 1) * c <= q * c;
  }

  /** All products of threshold and score fit into 64 bits. */
  ghost predicate ScoresFit(score: seq<nat>, threshold: nat) {
    forall i: nat :: i < |score| ==> threshold * score[i] <= MAX_U64
  }

  method RevFactors(score: seq<u64>, threshold: u64, quorum: nat, maxQuorum: nat)
    returns (factors: seq<u64>, ghost q: nat)
    requires threshold > 0
    ensures 1 <= q <= MAX_U64 && |factors| == |score|
    ensures 1 <= quorum <= maxQuorum ==> IsQuorumScore(score, quorum, q)
    ensures forall i: nat :: i < |score| ==> factors[i] == CodeFactor(score[i], threshold, q) <= threshold
    ensures ScoresFit(score, threshold) ==>
              forall i: nat :: i < |score| ==> factors[i] == Factor(score[i], threshold, q)
  {
    var quorumScore := QuorumScore(score, quorum, maxQuorum);
    q := quorumScore;
    var out := new u64[|score|](_ => 0);
    for c := 0 to |score|
      invariant forall i: nat :: i < c ==> out[i] == CodeFactor(score[i], threshold, quorumScore) <= threshold
      invariant ScoresFit(score, threshold) ==>
                  forall i: nat :: i < c ==> out[i] == Factor(score[i], threshold, quorumScore)
    {
      var scoreFactor: u64 := 0;
      FactorExact(score[c], threshold, quorumScore);
      if score[c] == 0 {
        scoreFactor := 0;
      } else if score[c] >= quorumScore {
        scoreFactor := threshold;
      } else {
        scoreFactor := Wrap(threshold * score[c]) / quorumScore;
      }
      out[c] := scoreFactor;
    }
    factors := out[..];
  }

  // ----- Payouts -----

  /** The factors of `score` at quorum score `q`; exact where the products fit into 64 bits. */
  ghost predicate FactorsAt(score: seq<nat>, factors: seq<nat>, q: nat) {
    && q >= 1 && |factors| == |score|
    && (forall i: nat :: i < |score| ==> factors[i] == CodeFactor(score[i], SCALE, q))
    && (ScoresFit(score, SCALE) ==> forall i: nat :: i < |score| ==> factors[i] == Factor(score[i], SCALE, q))
  }

  /** The factors of `score` at its quorum score. */
  ghost predicate FactorsOf(score: seq<nat>, factors: seq<nat>, quorum: nat) {
    |factors| == |score| && exists q: nat :: IsQuorumScore(score, quorum, q) && FactorsAt(score, factors, q)
  }

  ghost predicate Idle(score: seq<nat>) {
    forall i: nat :: i < |score| ==> score[i] == 0
  }

  /** Factors at the quorum score, or full for everyone in an idle epoch. */
  ghost predicate FactorsOrFullOf(score: seq<nat>, factors: seq<nat>, quorum: nat) {
    && |factors| == |score|
    && (Idle(score) ==> forall i: nat :: i < |score| ==> factors[i] == SCALE)
    && (!Idle(score) ==> FactorsOf(score, factors, quorum))
  }

  /** Everyone gets the full factor when no score of the epoch is positive. */
  method FactorsOrFull(score: seq<u64>, quorum: nat) returns (factors: seq<u64>)
    requires quorum >= 1
    ensures FactorsOrFullOf(score, factors, quorum) && forall i: nat :: i < |score| ==> factors[i] <= SCALE
  {
    var active := AnyActive(score);
    if active {
      ghost var q: nat;
      factors, q := RevFactors(score, SCALE, quorum, quorum);
      assert FactorsAt(score, factors, q);
    } else {
      factors := seq(|score|, _ => SCALE);
    }
  }

  method AnyActive(score: seq<u64>) returns (active: bool)
    ensures active <==> exists i: nat :: i < |score| && score[i] != 0
  {
    active := false;
    for i := 0 to |score|
      invariant !active && forall j: nat :: j < i ==> score[j] == 0
    {
      if score[i] != 0 {
        return true;
      }
    }
  }

  lemma Products(a: nat, b: nat, x: nat, y: nat)
    requires a <= x && b <= y
    ensures a * b <= x * y
  {
    assert a * b <= a * y <= x * y;
  }

  /** The payment out of `ipc` for factors of at most SCALE: between 0 and `ipc`, within 64 bits. */
  function V2Payment(ipc: nat, tx: nat, oracle: nat, mining: nat): (pay: nat)
    requires tx <= SCALE && oracle <= SCALE && mining <= SCALE
  {
    ipc * ((W_TX * tx + W_ORACLE * oracle) / 20 * (SCALE * SCALE + BONUS_CAP * mining)) / DIVISOR
  }

  lemma {:induction false} V2PaymentBounds(ipc: nat, tx: nat, oracle: nat, mining: nat)
    requires tx <= SCALE && oracle <= SCALE && mining <= SCALE && ipc * DIVISOR <= MAX_U64
    ensures V2Payment(ipc, tx, oracle, mining) <= ipc
    ensures ipc * ((W_TX * tx + W_ORACLE * oracle) / 20 * (SCALE * SCALE + BONUS_CAP * mining)) <= MAX_U64
    ensures tx == oracle == mining == SCALE ==> V2Payment(ipc, tx, oracle, mining) == ipc
    ensures tx == 0 && oracle == 0 ==> V2Payment(ipc, tx, oracle, mining) == 0
  {
    var m, e := (W_TX * tx + W_ORACLE * oracle) / 20, SCALE * SCALE + BONUS_CAP * mining;
    Products(m, e, SCALE, 0x14_0000);
    var num := m * e;
    assert num <= DIVISOR;
    Products(ipc, num, ipc, DIVISOR);
    DivBelow(ipc * num, DIVISOR, ipc);
    if tx == oracle == mining == SCALE {
      assert num == DIVISOR;
      DivExact(ipc, DIVISOR);
    }
    if tx == 0 && oracle == 0 {
      assert num == 0;
    }
  }

  // ----- What the weights mean -----

  lemma DivCancel(a: nat, b: nat, c: nat)
    requires b > 0 && c > 0
    ensures b * c > 0 && a * c / (b * c) == a / b
  {
    var q := a / b;
    assert a == b * q + a % b;
    assert q * b <= a < (q + 1) * b;
    Scaled(a, b, c, q);
    DivIs(a * c, b * c, q);
  }

  lemma Scaled(a: nat, b: nat, c: nat, q: nat)
    requires b > 0 && c > 0 && q * b <= a < (q + 1) * b
    ensures b * c > 0 && q * (b * c) <= a * c < (q + 1) * (b * c)
  {
    Products(q * b, c, a, c);
    Products(a + 1, c, (q + 1) * b, c);
    assert (a + 1) * c == a * c + c;
  }

  /** Without mining the payment is the weighted mean of 17 parts transactions and 3 parts oracle out of 1280; with
      full mining it is out of 1024. */
  lemma V2PaymentMeans(ipc: nat, tx: nat, oracle: nat)
    requires tx <= 1024 && oracle <= 1024
    ensures V2Payment(ipc, tx, oracle, 0) == ipc * ((17 * tx + 3 * oracle) / 20) / 1280
    ensures V2Payment(ipc, tx, oracle, 1024) == ipc * ((17 * tx + 3 * oracle) / 20) / 1024
  {
    var m := (17 * tx + 3 * oracle) / 20;
    assert ipc * (m * 0x10_0000) == ipc * m * 0x10_0000;
    DivCancel(ipc * m, 1280, 0x10_0000);
    assert ipc * (m * 0x14_0000) == ipc * m * 0x14_0000;
    DivCancel(ipc * m, 1024, 0x14_0000);
  }

  /** In numbers: what a full transaction factor and a full oracle factor bring alone, and a full mining factor
      raises every payment by a quarter, up to rounding. */
  lemma V2PaymentWeights(ipc: nat, tx: nat, oracle: nat)
    requires tx <= 1024 && oracle <= 1024
    ensures V2Payment(ipc, 1024, 0, 0) == ipc * 870 / 1280 && V2Payment(ipc, 0, 1024, 0) == ipc * 153 / 1280
    ensures V2Payment(ipc, 1024, 1024, 0) == ipc * 1024 / 1280 && V2Payment(ipc, 1024, 1024, 1024) == ipc
    ensures var none, full := V2Payment(ipc, tx, oracle, 0), V2Payment(ipc, tx, oracle, 1024);
            5 * none - 4 < 4 * full < 5 * none + 5
  {
    V2PaymentMeans(ipc, 1024, 0);
    V2PaymentMeans(ipc, 0, 1024);
    V2PaymentMeans(ipc, 1024, 1024);
    DivExact(ipc, 1024);
    V2PaymentMeans(ipc, tx, oracle);
    Quarter(ipc * ((17 * tx + 3 * oracle) / 20));
  }

  lemma Quarter(x: nat)
    ensures 5 * (x / 1280) - 4 < 4 * (x / 1024) < 5 * (x / 1280) + 5
  {
  }

  /** No factor lowers the payment when it rises. */
  lemma {:induction false} V2PaymentMonotone(ipc: nat, tx: nat, oracle: nat, mining: nat, tx': nat, oracle': nat,
                                             mining': nat)
    requires tx <= tx' <= SCALE && oracle <= oracle' <= SCALE && mining <= mining' <= SCALE
    ensures V2Payment(ipc, tx, oracle, mining) <= V2Payment(ipc, tx', oracle', mining')
  {
    var m, m' := (W_TX * tx + W_ORACLE * oracle) / 20, (W_TX * tx' + W_ORACLE * oracle') / 20;
    var e, e' := SCALE * SCALE + BONUS_CAP * mining, SCALE * SCALE + BONUS_CAP * mining';
    DivMonotone(W_TX * tx + W_ORACLE * oracle, W_TX * tx' + W_ORACLE * oracle', 20);
    Products(m, e, m', e');
    Products(ipc, m * e, ipc, m' * e');
    DivMonotone(ipc * (m * e), ipc * (m' * e'), DIVISOR);
  }

  lemma {:induction false} DivExact(a: nat, c: nat)
    requires c > 0
    ensures a * c / c == a
  {
    DivBelow(a * c, c, a);
    var q := a * c / c;
    assert a * c == c * q + (a * c) % c;
    assert q < a ==> c * q <= c * (a - 1);
  }

  /** An exact floor of the square root. */
  ghost predicate IsRoot(root: nat -> nat) {
    forall x: nat :: RootAt(root, x)
  }

  ghost predicate RootAt(root: nat -> nat, x: nat) {
    root(x) * root(x) <= x < (root(x) + 1) * (root(x) + 1)
  }

  lemma RootMonotone(root: nat -> nat, x: nat, y: nat)
    requires IsRoot(root) && x <= y
    ensures root(x) <= root(y)
  {
    assert RootAt(root, x) && RootAt(root, y);
    var a, b := root(x), root(y);
    if a >= b + 1 { Products(b + 1, b + 1, a, a); }
  }

  lemma RootOfSquare(root: nat -> nat, a: nat)
    requires IsRoot(root)
    ensures root(a * a) == a
  {
    assert RootAt(root, a * a);
    var b := root(a * a);
    if b >= a + 1 { Products(a + 1, a + 1, b, b); }
    if b + 1 <= a { Products(b + 1, b + 1, a, a); }
  }

  /** The root of a 64-bit number has 32 bits. */
  lemma RootFits(root: nat -> nat, x: nat)
    requires IsRoot(root) && x <= MAX_U64
    ensures root(x) <= 0xFFFF_FFFF
  {
    assert RootAt(root, x);
    var a := root(x);
    if a >= 0x1_0000_0000 { Products(0x1_0000_0000, 0x1_0000_0000, a, a); }
  }

  function MultiDimPayment(ipc: nat, tx: nat, oracle: nat, dogeRoot: nat): nat {
    ipc * tx * oracle * dogeRoot / 0x4000_0000
  }

  /** The gate formula: between 0 and `ipc`, within 64 bits, the whole of `ipc` for full factors and
      nothing when one factor is zero. */
  lemma {:induction false} MultiDimPaymentBounds(ipc: nat, tx: nat, oracle: nat, doge: nat, root: nat -> nat)
    requires IsRoot(root) && tx <= SCALE && oracle <= SCALE && doge <= SCALE && ipc * 0x4000_0000 <= MAX_U64
    ensures root(doge * SCALE) <= SCALE
    ensures ipc * tx * oracle * root(doge * SCALE) <= MAX_U64
    ensures MultiDimPayment(ipc, tx, oracle, root(doge * SCALE)) <= ipc
    ensures tx == oracle == doge == SCALE ==> MultiDimPayment(ipc, tx, oracle, root(doge * SCALE)) == ipc
    ensures tx == 0 || oracle == 0 || doge == 0 ==> MultiDimPayment(ipc, tx, oracle, root(doge * SCALE)) == 0
  {
    DogeRoot(root, doge);
    GatePayment(ipc, tx, oracle, root(doge * SCALE));
  }

  /** So do the partial products of the gate formula. */
  lemma GatePartials(ipc: nat, tx: nat, oracle: nat)
    requires tx <= SCALE && oracle <= SCALE && ipc * 0x4000_0000 <= MAX_U64
    ensures ipc * tx <= MAX_U64 && ipc * tx * oracle <= MAX_U64
  {
    Products(ipc, tx, ipc, SCALE);
    Products(ipc * tx, oracle, ipc * SCALE, SCALE);
  }

  lemma DogeRoot(root: nat -> nat, doge: nat)
    requires IsRoot(root) && doge <= SCALE
    ensures root(doge * SCALE) <= SCALE && (doge == SCALE ==> root(doge * SCALE) == SCALE)
    ensures doge == 0 ==> root(doge * SCALE) == 0
  {
    RootMonotone(root, doge * SCALE, SCALE * SCALE);
    RootOfSquare(root, SCALE);
    RootOfSquare(root, 0);
  }

  lemma {:induction false} GatePayment(ipc: nat, tx: nat, oracle: nat, r: nat)
    requires tx <= SCALE && oracle <= SCALE && r <= SCALE && ipc * 0x4000_0000 <= MAX_U64
    ensures ipc * tx * oracle * r <= MAX_U64 && MultiDimPayment(ipc, tx, oracle, r) <= ipc
    ensures tx == oracle == r == SCALE ==> MultiDimPayment(ipc, tx, oracle, r) == ipc
    ensures tx == 0 || oracle == 0 || r == 0 ==> MultiDimPayment(ipc, tx, oracle, r) == 0
  {
    GateProduct(ipc, tx, oracle, r);
    var num := ipc * tx * oracle * r;
    assert num <= ipc * 0x4000_0000;
  }

  /** Each factor alone: the payment is proportional to it, and a quarter of the doge factor still brings half. */
  lemma {:induction false} GateShares(ipc: nat, f: nat, root: nat -> nat)
    requires IsRoot(root)
    ensures MultiDimPayment(ipc, f, 1024, 1024) == ipc * f / 1024
    ensures MultiDimPayment(ipc, 1024, f, 1024) == ipc * f / 1024
    ensures MultiDimPayment(ipc, 1024, 1024, f) == ipc * f / 1024
    ensures MultiDimPayment(ipc, 1024, 1024, root(256 * 1024)) == ipc / 2
  {
    assert ipc * f * 1024 * 1024 == ipc * f * 0x10_0000 == ipc * 1024 * f * 1024 == ipc * 1024 * 1024 * f;
    DivCancel(ipc * f, 1024, 0x10_0000);
    RootOfSquare(root, 512);
    assert ipc * 1024 * 1024 * 512 == ipc * 0x2000_0000;
    DivCancel(ipc, 2, 0x2000_0000);
  }

  lemma {:induction false} GateMonotone(ipc: nat, tx: nat, oracle: nat, r: nat, tx': nat, oracle': nat, r': nat)
    requires tx <= tx' && oracle <= oracle' && r <= r'
    ensures MultiDimPayment(ipc, tx, oracle, r) <= MultiDimPayment(ipc, tx', oracle', r')
  {
    Products(ipc, tx, ipc, tx');
    Products(ipc * tx, oracle, ipc * tx', oracle');
    Products(ipc * tx * oracle, r, ipc * tx' * oracle', r');
    DivMonotone(ipc * tx * oracle * r, ipc * tx' * oracle' * r', 0x4000_0000);
  }

  lemma {:induction false} GateProduct(ipc: nat, tx: nat, oracle: nat, r: nat)
    requires tx <= SCALE && oracle <= SCALE && r <= SCALE
    ensures ipc * tx * oracle * r <= ipc * 0x4000_0000
    ensures tx == oracle == r == SCALE ==> ipc * tx * oracle * r == ipc * 0x4000_0000
    ensures tx == 0 || oracle == 0 || r == 0 ==> ipc * tx * oracle * r == 0
  {
    Products(ipc, tx, ipc, SCALE);
    Products(ipc * tx, oracle, ipc * SCALE, SCALE);
    Products(ipc * tx * oracle, r, ipc * SCALE * SCALE, SCALE);
  }
}
