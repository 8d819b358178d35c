/** The score of one tick and the tally of tick scores over an epoch. */
module RevenueScores {
  import opened RevenueFactors
  import opened RevenueWindow

  const TX_PER_TICK: nat := 4096
  const TICK_LIMIT: nat := 0x4000_0000

  /** The number of computors and contracts, and the first tick of the epoch. */
  datatype Config = Config(computors: nat, contracts: nat, initialTick: nat) {
    predicate Valid() { computors >= 2 }

    /** The largest sum of a window. */
    function WindowMax(): nat requires Valid() { Size() * TX_PER_TICK }

    /** The bound on the constants that the source asserts at compile time. */
    predicate Fits() {
      Valid() && Dim() * (WindowMax() * WindowMax()) <= MAX_U64
    }

    /** What this bound means for the window. */
    predicate Narrow() { Valid() && Size() < 0x4000 }

    /** `n` ticks: 32-bit tick numbers, and few enough for signed 32-bit offsets. */
    predicate TicksFit(n: nat) { n <= TICK_LIMIT && initialTick + n <= 0x1_0000_0000 }

    function Half(): nat requires Valid() { computors - 1 }
    function Size(): nat requires Valid() { 2 * Half() + 1 }
    function Dim(): nat { computors + contracts + 1 }
  }

  /** The node's 676 computors with up to 1024 contracts meet the bounds. */
  lemma NodeFits(contracts: nat, initialTick: nat)
    requires contracts <= 1024
    ensures Config(676, contracts, initialTick).Fits()
  {
    var cfg := Config(676, contracts, initialTick);
    assert cfg.WindowMax() * cfg.WindowMax() == 30621791420416;
  }

  const M_SRC_COMPUTOR: nat := 1
  const M_CONTRACT: nat := 1
  const M_TRANSFER: nat := 1

  function Multiplier(cfg: Config, d: nat): nat {
    if d < cfg.computors then M_SRC_COMPUTOR
    else if d < cfg.computors + cfg.contracts then M_CONTRACT
    else M_TRANSFER
  }

  // ----- The score of one tick -----

  /** How far `size` times the observation falls short of the window sum. */
  function Deficit(cfg: Config, d: nat, ws: nat, wo: nat): nat {
    if wo >= ws then 0 else Multiplier(cfg, d) * (ws - wo)
  }

  function Capacity(cfg: Config, d: nat, ws: nat): nat {
    Multiplier(cfg, d) * ws
  }

  ghost function SumDeficit(cfg: Config, observed: Row, window: Row, n: nat): nat
    requires cfg.Valid() && n <= |observed| && n <= |window|
  {
    if n == 0 then 0
    else var x := Deficit(cfg, n - 1, window[n - 1], cfg.Size() * observed[n - 1]);
         SumDeficit(cfg, observed, window, n - 1) + x * x
  }

  ghost function SumCapacity(cfg: Config, window: Row, n: nat): nat
    requires n <= |window|
  {
    if n == 0 then 0
    else var x := Capacity(cfg, n - 1, window[n - 1]);
         SumCapacity(cfg, window, n - 1) + x * x
  }

  function Score(root: nat -> nat, sumDef: nat, sumCap: nat): int {
    if sumCap == 0 || root(sumCap) == 0 then SCALE else SCALE - SCALE * root(sumDef) / root(sumCap)
  }

  /** SCALE less the share of the window that the tick leader left out, as Euclidean lengths. */
  ghost function TickScore(cfg: Config, root: nat -> nat, observed: Row, window: Row): int
    requires cfg.Valid() && |observed| == |window|
  {
    Score(root, SumDeficit(cfg, observed, window, |window|), SumCapacity(cfg, window, |window|))
  }

  lemma {:induction false} DeficitIsSum(cfg: Config, observed: Row, window: Row, n: nat)
    requires cfg.Valid() && n <= |observed| == |window|
    ensures SumDeficit(cfg, observed, window, n)
         == Sum(n, (d: nat) => if d >= |window| || window[d] <= (2 * cfg.computors - 1) * observed[d] then 0
                               else (window[d] - (2 * cfg.computors - 1) * observed[d])
                                    * (window[d] - (2 * cfg.computors - 1) * observed[d]))
  {
    if n > 0 {
      DeficitIsSum(cfg, observed, window, n - 1);
      assert cfg.Size() == 2 * cfg.computors - 1;
    }
  }

  lemma {:induction false} CapacityIsSum(cfg: Config, window: Row, n: nat)
    requires n <= |window|
    ensures SumCapacity(cfg, window, n) == Sum(n, (d: nat) => if d < |window| then window[d] * window[d] else 0)
  {
    if n > 0 { CapacityIsSum(cfg, window, n - 1); }
  }

  /** The score in numbers: 1024 less 1024 times the length of what was left out, 2 * computors - 1 times the
      observation counting as taken in, over the length of the window. */
  lemma TickScoreIs(cfg: Config, root: nat -> nat, observed: Row, window: Row, left: nat, all: nat)
    requires cfg.Valid() && |observed| == |window| && IsRoot(root)
    requires left == Sum(|window|, (d: nat) =>
               if d >= |window| || window[d] <= (2 * cfg.computors - 1) * observed[d] then 0
               else (window[d] - (2 * cfg.computors - 1) * observed[d])
                    * (window[d] - (2 * cfg.computors - 1) * observed[d]))
    requires all == Sum(|window|, (d: nat) => if d < |window| then window[d] * window[d] else 0)
    ensures all == 0 ==> TickScore(cfg, root, observed, window) == 1024
    ensures all > 0 ==> root(all) > 0 && TickScore(cfg, root, observed, window) == 1024 - 1024 * root(left) / root(all)
  {
    DeficitIsSum(cfg, observed, window, |window|);
    CapacityIsSum(cfg, window, |window|);
    DeficitWithin(cfg, observed, window, |window|);
    ScoreRange(root, left, all);
  }

  lemma {:induction false} DeficitWithin(cfg: Config, observed: Row, window: Row, n: nat)
    requires cfg.Valid() && n <= |observed| && n <= |window|
    ensures SumDeficit(cfg, observed, window, n) <= SumCapacity(cfg, window, n)
  {
    if n > 0 {
      DeficitWithin(cfg, observed, window, n - 1);
      var x, y := Deficit(cfg, n - 1, window[n - 1], cfg.Size() * observed[n - 1]), Capacity(cfg, n - 1, window[n - 1]);
      Products(x, x, y, y);
    }
  }

  lemma ScoreRange(root: nat -> nat, sumDef: nat, sumCap: nat)
    requires IsRoot(root) && sumDef <= sumCap
    ensures 0 <= Score(root, sumDef, sumCap) <= SCALE
    ensures sumCap > 0 ==> root(sumCap) > 0
    ensures sumDef == 0 ==> Score(root, sumDef, sumCap) == SCALE
    ensures sumDef == sumCap > 0 ==> Score(root, sumDef, sumCap) == 0
  {
    RootMonotone(root, sumDef, sumCap);
    assert RootAt(root, sumCap);
    RootOfSquare(root, 0);
    var p, c := root(sumDef), root(sumCap);
    if c > 0 {
      Products(SCALE, p, SCALE, c);
      DivBelow(SCALE * p, c, SCALE);
      DivExact(SCALE, c);
    }
  }

  /** A tick score lies in [0, SCALE], is full for a leader that falls short nowhere, and is zero for one
      that took in nothing while the window did. */
  lemma {:induction false} TickScoreRange(cfg: Config, root: nat -> nat, observed: Row, window: Row)
    requires cfg.Valid() && |observed| == |window| && IsRoot(root)
    ensures 0 <= TickScore(cfg, root, observed, window) <= SCALE
    ensures (forall d: nat :: d < |window| ==> cfg.Size() * observed[d] >= window[d]) ==>
              TickScore(cfg, root, observed, window) == SCALE
    ensures (forall d: nat :: d < |window| ==> observed[d] == 0) && SumCapacity(cfg, window, |window|) > 0 ==>
              TickScore(cfg, root, observed, window) == 0
  {
    var n := |window|;
    DeficitWithin(cfg, observed, window, n);
    ScoreRange(root, SumDeficit(cfg, observed, window, n), SumCapacity(cfg, window, n));
    if forall d: nat :: d < n ==> cfg.Size() * observed[d] >= window[d] {
      NoDeficit(cfg, observed, window, n);
    }
    if forall d: nat :: d < n ==> observed[d] == 0 {
      AllDeficit(cfg, observed, window, n);
    }
  }

  lemma {:induction false} NoDeficit(cfg: Config, observed: Row, window: Row, n: nat)
    requires cfg.Valid() && n <= |window| == |observed|
    requires forall d: nat :: d < |window| ==> cfg.Size() * observed[d] >= window[d]
    ensures SumDeficit(cfg, observed, window, n) == 0
  {
    if n > 0 { NoDeficit(cfg, observed, window, n - 1); }
  }

  lemma {:induction false} AllDeficit(cfg: Config, observed: Row, window: Row, n: nat)
    requires cfg.Valid() && n <= |window| == |observed|
    requires forall d: nat :: d < |window| ==> observed[d] == 0
    ensures SumDeficit(cfg, observed, window, n) == SumCapacity(cfg, window, n)
  {
    if n > 0 {
      AllDeficit(cfg, observed, window, n - 1);
      assert cfg.Size() * observed[n - 1] == 0;
    }
  }

  /** With at most `bound` in every entry of the window, both sums of squares stay within dim * bound^2. */
  lemma {:induction false} SumsBounded(cfg: Config, window: Row, n: nat, bound: nat)
    requires n <= |window| && forall d: nat :: d < |window| ==> window[d] <= bound
    ensures SumCapacity(cfg, window, n) <= n * (bound * bound)
  {
    if n > 0 {
      SumsBounded(cfg, window, n - 1, bound);
      Products(Capacity(cfg, n - 1, window[n - 1]), Capacity(cfg, n - 1, window[n - 1]), bound, bound);
      assert n * (bound * bound) == (n - 1) * (bound * bound) + bound * bound;
    }
  }

  ghost predicate SmallRow(row: Row, most: nat) {
    forall d: nat :: d < |row| ==> row[d] <= most
  }

  ghost predicate SmallRows(rows: seq<Row>, most: nat) {
    forall t: nat :: t < |rows| ==> SmallRow(rows[t], most)
  }

  /** No tick counts more than its transactions in any dimension. */
  ghost predicate Small(rows: seq<Row>) {
    SmallRows(rows, TX_PER_TICK)
  }

  lemma {:induction false} CircBounded(rows: seq<Row>, a: int, n: nat, d: nat, most: nat)
    requires |rows| > 0 && SmallRows(rows, most) && forall t: nat :: t < |rows| ==> d < |rows[t]|
    ensures Circ(rows, a, n, d) <= n * most
  {
    if n > 0 {
      CircBounded(rows, a, n - 1, d, most);
      assert SmallRow(rows[(a + n - 1) % |rows|], most);
      assert n * most == (n - 1) * most + most;
    }
  }

  lemma {:induction false} PlainBounded(rows: seq<Row>, lo: nat, hi: nat, d: nat)
    requires lo <= hi <= |rows| && Small(rows) && forall t: nat :: t < |rows| ==> d < |rows[t]|
    ensures Plain(rows, lo, hi, d) <= (hi - lo) * TX_PER_TICK
  {
    if lo < hi {
      PlainBounded(rows, lo, hi - 1, d);
      assert SmallRow(rows[hi - 1], TX_PER_TICK);
    }
  }

  /** Every number the score of a tick is computed from stays within 64 bits. */
  ghost predicate TickFits(cfg: Config, root: nat -> nat, observed: Row, window: Row)
    requires cfg.Valid() && |observed| == |window|
  {
    && (forall d: nat :: d < |window| ==> DimensionFits(cfg, d, observed[d], window[d]))
    && (forall n: nat :: n <= |window| ==> SumsFitAt(cfg, observed, window, n))
    && SCALE * root(SumDeficit(cfg, observed, window, |window|)) <= MAX_U64
  }

  /** The products of one dimension. */
  ghost predicate DimensionFits(cfg: Config, d: nat, observed: nat, ws: nat)
    requires cfg.Valid()
  {
    var cap := Capacity(cfg, d, ws);
    && cfg.Size() * observed <= MAX_U64 && cap <= MAX_U64 && cap * cap <= MAX_U64
    && Deficit(cfg, d, ws, cfg.Size() * observed) <= cap
  }

  /** The sums over the first `n` dimensions. */
  ghost predicate SumsFitAt(cfg: Config, observed: Row, window: Row, n: nat)
    requires cfg.Valid() && n <= |observed| == |window|
  {
    SumDeficit(cfg, observed, window, n) <= SumCapacity(cfg, window, n) <= MAX_U64
  }

  lemma DimensionFit(cfg: Config, d: nat, observed: nat, ws: nat)
    requires cfg.Fits() && observed <= TX_PER_TICK && ws <= cfg.WindowMax()
    ensures DimensionFits(cfg, d, observed, ws)
  {
    ObservedFits(cfg, observed);
    SquareFits(cfg, ws);
    DimensionFrom(cfg, d, observed, ws, cfg.Size() * observed, ws * ws);
  }

  lemma DimensionFrom(cfg: Config, d: nat, observed: nat, ws: nat, wo: nat, square: nat)
    requires cfg.Valid() && wo == cfg.Size() * observed <= MAX_U64 && square == ws * ws <= MAX_U64
    ensures DimensionFits(cfg, d, observed, ws)
  {
    var cap := Capacity(cfg, d, ws);
    assert cap == ws && Deficit(cfg, d, ws, wo) <= ws;
    assert ws <= square;
  }

  /** The asserted bound also limits the window. */
  lemma SizeFits(cfg: Config)
    requires cfg.Fits()
    ensures cfg.Narrow()
  {
    var w, square := cfg.WindowMax(), cfg.WindowMax() * cfg.WindowMax();
    if cfg.Size() >= 0x4000 {
      Products(0x400_0000, 0x400_0000, w, w);
      Products(0x2000, 0x10_0000_0000_0000, cfg.Dim(), square);
    }
  }

  lemma ObservedFits(cfg: Config, x: nat)
    requires cfg.Fits() && x <= TX_PER_TICK
    ensures cfg.Size() * x <= MAX_U64
  {
    SizeFits(cfg);
    Products(cfg.Size(), x, 0x4000, TX_PER_TICK);
  }

  lemma SquareFits(cfg: Config, w: nat)
    requires cfg.Fits() && w <= cfg.WindowMax()
    ensures w * w <= MAX_U64
  {
    SquaresFit(w, 1, cfg.WindowMax(), cfg.WindowMax() * cfg.WindowMax(), cfg.Dim());
  }

  lemma SumFits(cfg: Config, window: Row, n: nat)
    requires cfg.Fits() && n <= |window| == cfg.Dim() && SmallRow(window, cfg.WindowMax())
    ensures SumCapacity(cfg, window, n) <= MAX_U64
  {
    SumsBounded(cfg, window, n, cfg.WindowMax());
    SquaresFit(0, n, cfg.WindowMax(), cfg.WindowMax() * cfg.WindowMax(), cfg.Dim());
  }

  lemma SquaresFit(w: nat, n: nat, b: nat, square: nat, dim: nat)
    requires w <= b && square == b * b && n <= dim && 1 <= dim && dim * square <= MAX_U64
    ensures w * w <= MAX_U64 && n * square <= MAX_U64
  {
    Products(w, w, b, b);
    Products(1, square, dim, square);
    Products(n, square, dim, square);
  }

  /** The source's static bounds keep every number of a tick score in 64 bits. */
  lemma TickSumsFit(cfg: Config, root: nat -> nat, observed: Row, window: Row)
    requires cfg.Fits() && IsRoot(root) && |observed| == |window| == cfg.Dim()
    requires SmallRow(observed, TX_PER_TICK) && SmallRow(window, cfg.WindowMax())
    ensures TickFits(cfg, root, observed, window)
  {
    forall d: nat | d < |window| ensures DimensionFits(cfg, d, observed[d], window[d]) {
      DimensionFit(cfg, d, observed[d], window[d]);
    }
    forall n: nat | n <= |window| ensures SumsFitAt(cfg, observed, window, n) {
      SumFits(cfg, window, n);
      DeficitWithin(cfg, observed, window, n);
    }
    assert SumsFitAt(cfg, observed, window, |window|);
    RootFits(root, SumDeficit(cfg, observed, window, |window|));
  }

  // ----- The record of scored ticks -----

  /** One tick scored, with the rows the score was computed from. */
  datatype Scored = Scored(tick: nat, observed: Row, window: Row)

  ghost predicate ScoredOk(cfg: Config, log: seq<Scored>) {
    forall i: nat :: i < |log| ==> |log[i].observed| == |log[i].window|
  }

  /** What computor `k` has been given for the ticks in the log. */
  ghost function Tally(cfg: Config, root: nat -> nat, log: seq<Scored>, k: nat): int
    requires cfg.Valid() && ScoredOk(cfg, log)
  {
    if log == [] then 0
    else var e := log[|log| - 1];
         Tally(cfg, root, log[..|log| - 1], k)
         + if (cfg.initialTick + e.tick) % cfg.computors == k then TickScore(cfg, root, e.observed, e.window) else 0
  }

  lemma {:induction false} TallyConcat(cfg: Config, root: nat -> nat, a: seq<Scored>, b: seq<Scored>, k: nat)
    requires cfg.Valid() && ScoredOk(cfg, a) && ScoredOk(cfg, b)
    ensures ScoredOk(cfg, a + b) && Tally(cfg, root, a + b, k) == Tally(cfg, root, a, k) + Tally(cfg, root, b, k)
  {
    if b == [] {
      assert a + b == a;
    } else {
      assert (a + b)[..|a + b| - 1] == a + b[..|b| - 1];
      TallyConcat(cfg, root, a, b[..|b| - 1], k);
    }
  }

  /** Nobody gets more than SCALE per tick, and nobody less than nothing. */
  lemma {:induction false} TallyBounded(cfg: Config, root: nat -> nat, log: seq<Scored>, k: nat)
    requires cfg.Valid() && ScoredOk(cfg, log) && IsRoot(root)
    ensures 0 <= Tally(cfg, root, log, k) <= |log| * SCALE
  {
    if log != [] {
      var e := log[|log| - 1];
      TallyBounded(cfg, root, log[..|log| - 1], k);
      TickScoreRange(cfg, root, e.observed, e.window);
    }
  }

  /** A tick with its own observation and its circular window. */
  ghost function Exact(cfg: Config, rows: seq<Row>, t: nat): (e: Scored)
    requires cfg.Valid() && t < |rows| && Wide(rows, cfg.Dim())
    ensures |e.observed| == |e.window|
  {
    Scored(t, rows[t], Window(rows, t, cfg.Half(), cfg.Dim()))
  }

  /** All ticks in order. */
  ghost function Batch(cfg: Config, rows: seq<Row>): (log: seq<Scored>)
    requires cfg.Valid() && Wide(rows, cfg.Dim())
    ensures |log| == |rows| && ScoredOk(cfg, log) && forall t: nat :: t < |rows| ==> log[t] == Exact(cfg, rows, t)
  {
    seq(|rows|, (t: nat) requires t < |rows| => Exact(cfg, rows, t))
  }

  lemma {:induction false} TallyIsSum(cfg: Config, root: nat -> nat, log: seq<Scored>, k: nat, f: nat -> int)
    requires cfg.Valid() && ScoredOk(cfg, log)
    requires forall i: nat :: i < |log| ==>
               f(i) == if (cfg.initialTick + log[i].tick) % cfg.computors == k
                       then TickScore(cfg, root, log[i].observed, log[i].window) else 0
    ensures Tally(cfg, root, log, k) == Sum(|log|, f)
  {
    if log != [] { TallyIsSum(cfg, root, log[..|log| - 1], k, f); }
  }

  /** What the batch gives computor `k`: the scores of the ticks it leads, one computor after the other. */
  lemma BatchIsSum(cfg: Config, root: nat -> nat, rows: seq<Row>, k: nat)
    requires cfg.Valid() && Wide(rows, cfg.computors + cfg.contracts + 1)
    ensures Tally(cfg, root, Batch(cfg, rows), k)
         == Sum(|rows|, (t: nat) =>
              if t < |rows| && (cfg.initialTick + t) % cfg.computors == k
              then TickScore(cfg, root, rows[t],
                             Window(rows, t, cfg.computors - 1, cfg.computors + cfg.contracts + 1))
              else 0)
  {
    TallyIsSum(cfg, root, Batch(cfg, rows), k,
               (t: nat) =>
                 if t < |rows| && (cfg.initialTick + t) % cfg.computors == k
                 then TickScore(cfg, root, rows[t],
                                Window(rows, t, cfg.computors - 1, cfg.computors + cfg.contracts + 1))
                 else 0);
  }

  /** A log that starts at tick `h` and goes round the epoch once gives everyone what the batch gives. */
  lemma {:induction false} RotationTally(cfg: Config, root: nat -> nat, rows: seq<Row>, log: seq<Scored>, h: nat,
                                         k: nat)
    requires cfg.Valid() && Wide(rows, cfg.Dim()) && h <= |rows| == |log|
    requires forall i: nat :: i < |rows| ==>
               log[i] == Exact(cfg, rows, if h + i < |rows| then h + i else h + i - |rows|)
    ensures ScoredOk(cfg, log) && Tally(cfg, root, log, k) == Tally(cfg, root, Batch(cfg, rows), k)
  {
    var all := Batch(cfg, rows);
    assert log == all[h..] + all[..h];
    assert all == all[..h] + all[h..];
    TallyConcat(cfg, root, all[h..], all[..h], k);
    TallyConcat(cfg, root, all[..h], all[h..], k);
  }
}
