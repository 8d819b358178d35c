/** The two revenue formulas over a whole epoch. */
module RevenuePayout {
  import opened Remainders
  import opened Limbs
  import opened RevenueFactors
  import opened RevenueWindow
  import opened RevenueScores
  import opened RevenueStream

  // ----- computeRevenueV2: a batch circular window -----

  const POINTS_MAX: nat := 34071

  /** The points of a tick: the table entry of its transaction count, the last entry for larger counts. */
  function Points(points: seq<nat>, count: nat): nat
    requires points != []
  {
    points[if count > |points| - 1 then |points| - 1 else count]
  }

  ghost function PointRows(points: seq<nat>, counts: seq<nat>): (rows: seq<Row>)
    requires points != []
    ensures |rows| == |counts| && Wide(rows, 1)
    ensures forall t: nat :: t < |counts| ==> rows[t][0] == Points(points, counts[t])
  {
    seq(|counts|, (t: nat) requires t < |counts| => [Points(points, counts[t])])
  }

  /** The share of the tick in its window, where an even share counts SCALE. */
  function V2Score(size: nat, score: nat, window: nat): nat {
    score * SCALE * size / (if window == 0 then 1 else window)
  }

  /** What computor `k` gets for the first `n` ticks. */
  ghost function V2Tally(cfg: Config, rows: seq<Row>, n: nat, k: nat): nat
    requires cfg.Valid() && Wide(rows, 1) && n <= |rows|
  {
    if n == 0 then 0
    else V2Tally(cfg, rows, n - 1, k)
         + if (cfg.initialTick + n - 1) % cfg.computors == k
           then V2Score(cfg.Size(), rows[n - 1][0], Circ(rows, n - 1 - cfg.Half(), cfg.Size(), 0))
           else 0
  }

  lemma V2TallyStep(cfg: Config, rows: seq<Row>, t: nat, k: nat)
    requires cfg.Valid() && Wide(rows, 1) && t < |rows|
    ensures V2Tally(cfg, rows, t + 1, k)
         == V2Tally(cfg, rows, t, k)
            + if (cfg.initialTick + t) % cfg.computors != k then 0
              else
                var w := Circ(rows, t - (cfg.computors - 1), 2 * cfg.computors - 1, 0);
                if w == 0 then 0 else rows[t][0] * 1024 * (2 * cfg.computors - 1) / w
  {
    TickInWindow(cfg, rows, t);
    assert cfg.Size() == 2 * cfg.computors - 1 && cfg.initialTick + (t + 1) - 1 == cfg.initialTick + t;
  }

  /** In numbers: computor `k` gets, for the ticks t with (initialTick + t) % computors == k, the points of the tick
      times 1024 times the window size over the points of the window, which has computors - 1 ticks on either side. */
  lemma {:induction false} V2Total(cfg: Config, points: seq<nat>, counts: seq<nat>, n: nat, k: nat)
    requires cfg.Valid() && points != [] && n <= |counts|
    ensures V2Tally(cfg, PointRows(points, counts), n, k)
         == Sum(n, (t: nat) =>
              if t >= |counts| || (cfg.initialTick + t) % cfg.computors != k then 0
              else
                var p := points[if counts[t] < |points| then counts[t] else |points| - 1];
                var w := Circ(PointRows(points, counts), t - (cfg.computors - 1), 2 * cfg.computors - 1, 0);
                if w == 0 then 0 else p * 1024 * (2 * cfg.computors - 1) / w)
  {
    if n > 0 {
      V2Total(cfg, points, counts, n - 1, k);
      V2TallyStep(cfg, PointRows(points, counts), n - 1, k);
    }
  }

  /** Everyone has the points of the ticks it leads, each relative to the window around it. */
  ghost predicate LedPoints(cfg: Config, points: seq<nat>, counts: seq<nat>, scores: seq<nat>) {
    && cfg.Valid() && points != [] && |scores| == cfg.computors
    && forall k: nat :: k < cfg.computors ==>
         scores[k] == Sum(|counts|, (t: nat) =>
           if t >= |counts| || (cfg.initialTick + t) % cfg.computors != k then 0
           else
             var p := points[if counts[t] < |points| then counts[t] else |points| - 1];
             var w := Circ(PointRows(points, counts), t - (cfg.computors - 1), 2 * cfg.computors - 1, 0);
             if w == 0 then 0 else p * 1024 * (2 * cfg.computors - 1) / w)
  }

  lemma PointsLed(cfg: Config, points: seq<nat>, counts: seq<nat>, scores: seq<nat>)
    requires cfg.Valid() && points != [] && |scores| == cfg.computors
    requires forall k: nat :: k < cfg.computors ==> scores[k] == V2Tally(cfg, PointRows(points, counts), |counts|, k)
    ensures LedPoints(cfg, points, counts, scores)
  {
    forall k: nat | k < cfg.computors { V2Total(cfg, points, counts, |counts|, k); }
  }

  // ----- Bounds -----

  /** A tick is part of its own window. */
  lemma {:induction false} CircContains(rows: seq<Row>, a: int, n: nat, d: nat, j: nat)
    requires |rows| > 0 && j < n && forall t: nat :: t < |rows| ==> d < |rows[t]|
    ensures rows[(a + j) % |rows|][d] <= Circ(rows, a, n, d)
  {
    if j < n - 1 { CircContains(rows, a, n - 1, d, j); }
  }

  /** The score of a tick that is part of its window, with the product it is computed from. */
  lemma V2ScoreBounded(size: nat, score: nat, window: nat)
    requires score <= window && score <= POINTS_MAX && size < 0x4000
    ensures V2Score(size, score, window) <= SCALE * size && score * SCALE * size <= MAX_U64
  {
    Products(score * SCALE, size, POINTS_MAX * SCALE, 0x4000);
    var x := SCALE * size;
    Products(score, x, window, x);
    assert score * SCALE * size == score * x;
    if window > 0 { DivBelow(score * x, window, x); }
  }

  lemma TickInWindow(cfg: Config, rows: seq<Row>, t: nat)
    requires cfg.Valid() && Wide(rows, 1) && t < |rows|
    ensures rows[t][0] <= Circ(rows, t - cfg.Half(), cfg.Size(), 0)
  {
    CircContains(rows, t - cfg.Half(), cfg.Size(), 0, cfg.Half());
    assert t - cfg.Half() + cfg.Half() == t;
    ModSmall(t, |rows|);
  }

  lemma {:induction false} V2TallyBounded(cfg: Config, rows: seq<Row>, n: nat, k: nat)
    requires cfg.Narrow() && Wide(rows, 1) && n <= |rows| && SmallRows(rows, POINTS_MAX)
    ensures V2Tally(cfg, rows, n, k) <= n * (SCALE * cfg.Size())
  {
    if n > 0 {
      V2TallyBounded(cfg, rows, n - 1, k);
      TickInWindow(cfg, rows, n - 1);
      assert SmallRow(rows[n - 1], POINTS_MAX);
      V2ScoreBounded(cfg.Size(), rows[n - 1][0], Circ(rows, n - 1 - cfg.Half(), cfg.Size(), 0));
      assert n * (SCALE * cfg.Size()) == (n - 1) * (SCALE * cfg.Size()) + SCALE * cfg.Size();
    }
  }

  /** The scores of an epoch, and their products with SCALE, stay within 64 bits. */
  lemma V2TallyFits(cfg: Config, rows: seq<Row>, n: nat, k: nat)
    requires cfg.Narrow() && Wide(rows, 1) && n <= |rows| && n <= TICK_LIMIT && SmallRows(rows, POINTS_MAX)
    ensures SCALE * V2Tally(cfg, rows, n, k) <= MAX_U64
  {
    V2TallyBounded(cfg, rows, n, k);
    Products(n, SCALE * cfg.Size(), TICK_LIMIT, SCALE * 0x3FFF);
  }

  /** The remainder of a division that rounds toward zero. */
  function TruncMod(i: int, n: nat): int
    requires n > 0
  {
    if i >= 0 then i % n else -((-i) % n)
  }

  lemma {:induction false} CircularIndex(i: int, n: nat)
    requires n > 0 && 0 - n < i < n
    ensures (TruncMod(i, n) + n) % n == i % n
  {
    if i >= 0 {
      ModSmall(i, n);
    } else {
      ModSmall(-i, n);
    }
    ModShift(i, n);
  }

  /** The points of an epoch of at least one window. */
  ghost predicate LogsOf(cfg: Config, logs: seq<nat>, rows: seq<Row>) {
    && cfg.Narrow() && cfg.TicksFit(|rows|) && |logs| == |rows| >= cfg.Size() && Wide(rows, 1)
    && SmallRows(rows, POINTS_MAX)
    && forall t: nat :: t < |rows| ==> logs[t] == rows[t][0]
  }

  lemma CircFits(cfg: Config, rows: seq<Row>, a: int, n: nat)
    requires cfg.Narrow() && |rows| > 0 && Wide(rows, 1) && SmallRows(rows, POINTS_MAX) && n <= cfg.Size()
    ensures Circ(rows, a, n, 0) <= MAX_U64
  {
    CircBounded(rows, a, n, 0, POINTS_MAX);
  }

  /** The window around tick 0. */
  method FirstWindow(cfg: Config, logs: seq<u64>, ghost rows: seq<Row>) returns (windowSum: u64)
    requires LogsOf(cfg, logs, rows)
    ensures windowSum == Circ(rows, 0 - cfg.Half(), cfg.Size(), 0)
  {
    windowSum := 0;
    var h: int := cfg.Half();
    for i := -h to h + 1
      invariant windowSum == Circ(rows, -h, i + h, 0)
    {
      CircularIndex(i, |logs|);
      CircFits(cfg, rows, -h, i + 1 + h);
      assert -h + (i + 1 + h) - 1 == i;
      windowSum := windowSum + logs[(TruncMod(i, |logs|) + |logs|) % |logs|];
    }
  }

  lemma SlideIndices(rows: seq<Row>, a: int, w: nat, i: int, j: int)
    requires |rows| > 0 && w > 0 && Wide(rows, 1) && i == a % |rows| && j == (a + w) % |rows|
    ensures Circ(rows, a + 1, w, 0) == Circ(rows, a, w, 0) - rows[i][0] + rows[j][0]
    ensures rows[i][0] <= Circ(rows, a, w, 0)
  {
    CircSlide(rows, a, w, 0);
  }

  lemma SlideV2(rows: seq<Row>, t: nat, h: nat)
    requires |rows| >= 2 * h + 1 && Wide(rows, 1) && t < |rows|
    ensures var n, w := |rows|, 2 * h + 1;
            && Circ(rows, t + 1 - h, w, 0)
               == Circ(rows, t - h, w, 0) - rows[(t + n - h) % n][0] + rows[(t + h + 1) % n][0]
            && rows[(t + n - h) % n][0] <= Circ(rows, t - h, w, 0)
  {
    var n, w, a := |rows|, 2 * h + 1, t - h;
    LeavingIndex(t, h, n);
    assert a + w == t + h + 1 && a + 1 == t + 1 - h;
    SlideIndices(rows, a, w, (t + n - h) % n, (t + h + 1) % n);
  }

  lemma LeavingIndex(t: nat, h: nat, n: nat)
    requires n > 0 && h <= t + n
    ensures (t + n - h) % n == (t - h) % n
  {
    ModShift(t - h, n);
    assert t - h + n == t + n - h;
  }

  /** The sliding pass over all ticks equals the direct circular window of every tick. */
  method SlidingScores(cfg: Config, logs: seq<u64>, ghost rows: seq<Row>) returns (scores: seq<u64>)
    requires LogsOf(cfg, logs, rows)
    ensures |scores| == cfg.computors
    ensures forall k: nat :: k < cfg.computors ==> scores[k] == V2Tally(cfg, rows, |rows|, k)
    ensures ScoresFit(scores, SCALE)
  {
    var n, h := |logs|, cfg.Half();
    var windowSum := FirstWindow(cfg, logs, rows);
    var txScore := new u64[cfg.computors](_ => 0);
    for t := 0 to n
      invariant windowSum == Circ(rows, t - h, cfg.Size(), 0)
      invariant forall k: nat :: k < cfg.computors ==> txScore[k] == V2Tally(cfg, rows, t, k)
    {
      var c := (cfg.initialTick + t) % cfg.computors;
      V2TallyFits(cfg, rows, t + 1, c);
      var score := ScoreTick(cfg, logs, rows, t, windowSum);
      txScore[c] := txScore[c] + score;
      windowSum := SlideSum(cfg, logs, rows, t, windowSum);
    }
    scores := txScore[..];
    forall k: nat | k < |scores| ensures SCALE * scores[k] <= MAX_U64 {
      V2TallyFits(cfg, rows, n, k);
    }
  }

  /** The score of tick `t`, through a 64-bit product. */
  method ScoreTick(cfg: Config, logs: seq<u64>, ghost rows: seq<Row>, t: nat, windowSum: u64) returns (score: u64)
    requires LogsOf(cfg, logs, rows) && t < |rows| && windowSum == Circ(rows, t - cfg.Half(), cfg.Size(), 0)
    ensures score == V2Score(cfg.Size(), rows[t][0], windowSum)
  {
    TickInWindow(cfg, rows, t);
    assert SmallRow(rows[t], POINTS_MAX);
    V2ScoreBounded(cfg.Size(), logs[t], windowSum);
    var windowVal: u64 := if windowSum == 0 then 1 else windowSum;
    var product: u64 := logs[t] * SCALE * cfg.Size();
    score := product / windowVal;
  }

  /** The sum of the next window. */
  method SlideSum(cfg: Config, logs: seq<u64>, ghost rows: seq<Row>, t: nat, windowSum: u64) returns (next: u64)
    requires LogsOf(cfg, logs, rows) && t < |rows| && windowSum == Circ(rows, t - cfg.Half(), cfg.Size(), 0)
    ensures next == Circ(rows, t + 1 - cfg.Half(), cfg.Size(), 0)
  {
    var n, h := |logs|, cfg.Half();
    SlideV2(rows, t, h);
    CircFits(cfg, rows, t + 1 - h, cfg.Size());
    var rest: u64 := windowSum - logs[(t + n - h) % n];
    next := rest + logs[(t + h + 1) % n];
  }

  method PointsOf(points: seq<u64>, counts: seq<nat>) returns (logs: seq<u64>)
    requires points != []
    ensures |logs| == |counts| && forall t: nat :: t < |counts| ==> logs[t] == Points(points, counts[t])
  {
    logs := [];
    for t := 0 to |counts|
      invariant |logs| == t && forall i: nat :: i < t ==> logs[i] == Points(points, counts[i])
    {
      logs := logs + [Points(points, counts[t])];
    }
  }

  /** One payment, every step within 64 bits. */
  method PayOneV2(ipc: u64, tx: u64, oracle: u64, mining: u64) returns (pay: u64)
    requires tx <= SCALE && oracle <= SCALE && mining <= SCALE && ipc * DIVISOR <= MAX_U64
    ensures pay == V2Payment(ipc, tx, oracle, mining) <= ipc
  {
    V2PaymentBounds(ipc, tx, oracle, mining);
    var m: u64 := (W_TX * tx + W_ORACLE * oracle) / 20;
    var e: u64 := SCALE * SCALE + BONUS_CAP * mining;
    Products(m, e, SCALE, 0x14_0000);
    var numerator: u64 := m * e;
    var scaled: u64 := ipc * numerator;
    pay := scaled / DIVISOR;
  }

  /** Each payment is the formula of factors in [0, SCALE]. */
  method PayV2(ipc: u64, tx: seq<u64>, oracle: seq<u64>, mining: seq<u64>) returns (revenue: seq<u64>)
    requires |tx| == |oracle| == |mining| && ipc * DIVISOR <= MAX_U64
    requires forall i: nat :: i < |tx| ==> tx[i] <= SCALE && oracle[i] <= SCALE && mining[i] <= SCALE
    ensures |revenue| == |tx|
    ensures forall i: nat :: i < |tx| ==> revenue[i] == V2Payment(ipc, tx[i], oracle[i], mining[i]) <= ipc
  {
    revenue := [];
    for i := 0 to |tx|
      invariant |revenue| == i
      invariant forall j: nat :: j < i ==> revenue[j] == V2Payment(ipc, tx[j], oracle[j], mining[j]) <= ipc
    {
      var pay := PayOneV2(ipc, tx[i], oracle[i], mining[i]);
      revenue := revenue + [pay];
    }
  }

  ghost predicate Full(factors: seq<nat>) {
    forall i: nat :: i < |factors| ==> factors[i] <= SCALE
  }

  /** `computeRevenueV2`. The factors of the transaction scores are exact; those of oracle and mining scores are
      where the asserted bound holds. No number leaves 64 bits. */
  method ComputeRevenueV2(cfg: Config, counts: seq<nat>, points: seq<u64>, oracle: seq<u64>, doge: seq<u64>, ipc: u64,
                          quorum: nat)
    returns (scores: seq<u64>, revenue: seq<u64>, ghost tx: seq<nat>, ghost orc: seq<nat>, ghost mining: seq<nat>)
    requires cfg.Narrow() && cfg.TicksFit(|counts|) && points != [] && SmallRow(points, POINTS_MAX)
    requires |oracle| == |doge| == cfg.computors && ipc * DIVISOR <= MAX_U64 && quorum >= 1
    ensures |scores| == |revenue| == cfg.computors && forall i: nat :: i < cfg.computors ==> revenue[i] <= ipc
    ensures |counts| < cfg.Size() ==> forall i: nat :: i < cfg.computors ==> scores[i] == 0 && revenue[i] == 0
    ensures |counts| >= cfg.Size() ==>
              && LedPoints(cfg, points, counts, scores)
              && ScoresFit(scores, SCALE) && Full(tx) && Full(orc) && Full(mining)
              && FactorsOf(scores, tx, quorum) && FactorsOrFullOf(oracle, orc, quorum)
              && FactorsOf(doge, mining, quorum)
              && (forall i: nat :: i < cfg.computors ==> revenue[i] == V2Payment(ipc, tx[i], orc[i], mining[i]))
  {
    tx, orc, mining := [], [], [];
    if |counts| < cfg.Size() {
      return seq(cfg.computors, _ => 0), seq(cfg.computors, _ => 0), tx, orc, mining;
    }
    var logs := PointsOf(points, counts);
    PointsSmall(points, counts);
    scores := SlidingScores(cfg, logs, PointRows(points, counts));
    ghost var q, q': nat;
    var txFactor, oracleFactor, miningFactor;
    txFactor, q := RevFactors(scores, SCALE, quorum, quorum);
    oracleFactor := FactorsOrFull(oracle, quorum);
    miningFactor, q' := RevFactors(doge, SCALE, quorum, quorum);
    assert FactorsAt(scores, txFactor, q) && FactorsAt(doge, miningFactor, q');
    tx, orc, mining := txFactor, oracleFactor, miningFactor;
    revenue := PayV2(ipc, txFactor, oracleFactor, miningFactor);
    PointsLed(cfg, points, counts, scores);
  }

  lemma PointsSmall(points: seq<nat>, counts: seq<nat>)
    requires points != [] && SmallRow(points, POINTS_MAX)
    ensures SmallRows(PointRows(points, counts), POINTS_MAX)
  {
    var rows := PointRows(points, counts);
    forall t: nat | t < |rows| ensures SmallRow(rows[t], POINTS_MAX) {
    }
  }

  // ----- computeMultiDimRevenue -----

  /** One payment of the gate formula, every step within 64 bits. */
  method PayOneMultiDim(ipc: u64, root: nat -> nat, tx: u64, oracle: u64, doge: u64) returns (pay: u64)
    requires tx <= SCALE && oracle <= SCALE && doge <= SCALE && ipc * 0x4000_0000 <= MAX_U64 && IsRoot(root)
    ensures pay == MultiDimPayment(ipc, tx, oracle, root(doge * SCALE)) <= ipc
  {
    MultiDimPaymentBounds(ipc, tx, oracle, doge, root);
    GatePartials(ipc, tx, oracle);
    var scaledDoge: u64 := doge * SCALE;
    var dogeRootScaled: u64 := root(scaledDoge);
    var p1: u64 := ipc * tx;
    var p2: u64 := p1 * oracle;
    var num: u64 := p2 * dogeRootScaled;
    pay := num / (SCALE * SCALE * SCALE);
  }

  method PayMultiDim(ipc: u64, root: nat -> nat, tx: seq<u64>, oracle: seq<u64>, doge: seq<u64>)
    returns (revenue: seq<u64>)
    requires |tx| == |oracle| == |doge| && ipc * 0x4000_0000 <= MAX_U64 && IsRoot(root)
    requires forall i: nat :: i < |tx| ==> tx[i] <= SCALE && oracle[i] <= SCALE && doge[i] <= SCALE
    ensures |revenue| == |tx|
    ensures forall i: nat :: i < |tx| ==>
              revenue[i] == MultiDimPayment(ipc, tx[i], oracle[i], root(doge[i] * SCALE)) <= ipc
  {
    revenue := [];
    for i := 0 to |tx|
      invariant |revenue| == i
      invariant forall j: nat :: j < i ==>
                  revenue[j] == MultiDimPayment(ipc, tx[j], oracle[j], root(doge[j] * SCALE)) <= ipc
    {
      var pay := PayOneMultiDim(ipc, root, tx[i], oracle[i], doge[i]);
      revenue := revenue + [pay];
    }
  }

  /** Everyone has the scores of the ticks it leads, each with the window of computors - 1 ticks on either side. */
  ghost predicate LedScores(cfg: Config, root: nat -> nat, rows: seq<Row>, scores: seq<nat>) {
    && cfg.Valid() && |scores| == cfg.computors && Wide(rows, cfg.computors + cfg.contracts + 1)
    && forall k: nat :: k < cfg.computors ==>
         scores[k] == Sum(|rows|, (t: nat) =>
           if t < |rows| && (cfg.initialTick + t) % cfg.computors == k
           then TickScore(cfg, root, rows[t], Window(rows, t, cfg.computors - 1, cfg.computors + cfg.contracts + 1))
           else 0)
  }

  lemma ScoresLed(cfg: Config, root: nat -> nat, rows: seq<Row>, log: seq<Scored>, scores: seq<nat>)
    requires ExactOk(cfg, rows, log) && |log| == |rows| && ScoredOk(cfg, log) && |scores| == cfg.computors
    requires forall k: nat :: k < cfg.computors ==> scores[k] == Tally(cfg, root, log, k)
    ensures LedScores(cfg, root, rows, scores)
  {
    forall k: nat | k < cfg.computors { EpochTotal(cfg, root, rows, log, k); }
  }

  /** The end of the epoch: edge ticks, factors and payments. The factors of the transaction scores are exact. */
  method ComputeMultiDimRevenue(r: MultiDimRevenue, n: nat, oracle: seq<u64>, doge: seq<u64>, ipc: u64, quorum: nat,
                                dogeDisabled: bool)
    returns (revenue: seq<u64>, ghost tx: seq<nat>, ghost orc: seq<nat>, ghost dog: seq<nat>)
    requires r.Valid() && n == |r.rows| && |oracle| == |doge| == r.cfg.computors && ipc * 0x4000_0000 <= MAX_U64
    requires quorum >= 1
    modifies r`log, r.txScore, r.edgeWindowSum
    ensures r.Shape() && r.Tallied() && |revenue| == r.cfg.computors
    ensures if n < r.cfg.Size() then r.log == [] else |r.log| == n && ExactOk(r.cfg, r.rows, r.log)
    ensures ScoresFit(r.txScore[..], SCALE) && FactorsOf(r.txScore[..], tx, quorum)
    ensures FactorsOrFullOf(oracle, orc, quorum) && |dog| == r.cfg.computors
    ensures if dogeDisabled then forall i: nat :: i < |dog| ==> dog[i] == SCALE else FactorsOrFullOf(doge, dog, quorum)
    ensures forall i: nat :: i < r.cfg.computors ==>
              revenue[i] == MultiDimPayment(ipc, tx[i], orc[i], r.root(dog[i] * 1024)) <= ipc
    ensures n >= r.cfg.Size() ==> LedScores(r.cfg, r.root, r.rows, r.txScore[..])
  {
    r.ScoreEpochEdgeTicks(n);
    ghost var q: nat;
    var txFactor;
    txFactor, q := RevFactors(r.txScore[..], SCALE, quorum, quorum);
    assert FactorsAt(r.txScore[..], txFactor, q);
    var oracleFactor := FactorsOrFull(oracle, quorum);
    var dogeFactor := seq(|doge|, _ => SCALE);
    if !dogeDisabled {
      dogeFactor := FactorsOrFull(doge, quorum);
    }
    tx, orc, dog := txFactor, oracleFactor, dogeFactor;
    revenue := PayMultiDim(ipc, r.root, txFactor, oracleFactor, dogeFactor);
    if n >= r.cfg.Size() {
      ScoresLed(r.cfg, r.root, r.rows, r.log, r.txScore[..]);
    }
  }
}
