/** The streaming revenue scores: a ring of the last ticks, a frozen head of the first ones, running
    column sums, and the pass over the ticks at the edges of the epoch. */
module RevenueStream {
  import opened Remainders
  import opened Limbs
  import opened RevenueFactors
  import opened RevenueWindow
  import opened RevenueScores

  // ----- What ring, head and sums hold -----

  ghost predicate RingAt(ring: seq<Row>, rows: seq<Row>, x: nat)
    requires |ring| > 0 && x < |rows|
  {
    ring[x % |ring|] == rows[x]
  }

  /** The ring holds the last |ring| ticks. */
  ghost predicate RingOk(ring: seq<Row>, rows: seq<Row>) {
    |ring| > 0 && forall x: nat :: x < |rows| <= x + |ring| ==> RingAt(ring, rows, x)
  }

  /** The head holds the first |head| ticks. */
  ghost predicate HeadOk(head: seq<Row>, rows: seq<Row>) {
    forall x: nat :: x < |head| && x < |rows| ==> head[x] == rows[x]
  }

  ghost function First(n: nat, w: nat): nat {
    if n < w then 0 else n - w
  }

  ghost predicate SumOk(sum: Row, rows: seq<Row>, w: nat, dim: nat) {
    Wide(rows, dim) && sum == PlainRow(rows, First(|rows|, w), |rows|, dim)
  }

  lemma RingStep(ring: seq<Row>, rows: seq<Row>, row: Row)
    requires RingOk(ring, rows)
    ensures RingOk(ring[|rows| % |ring| := row], rows + [row])
  {
    var n, w := |rows|, |ring|;
    var ring', rows' := ring[n % w := row], rows + [row];
    forall x: nat | x < |rows'| <= x + w ensures RingAt(ring', rows', x) {
      if x < n {
        assert RingAt(ring, rows, x);
        if x % w == n % w { ModUnique(x, n, w); }
      }
    }
  }

  /** The slot of a new tick holds the tick that leaves the window. */
  lemma RingEvict(ring: seq<Row>, rows: seq<Row>)
    requires RingOk(ring, rows) && |rows| >= |ring|
    ensures ring[|rows| % |ring|] == rows[|rows| - |ring|]
  {
    assert RingAt(ring, rows, |rows| - |ring|);
    ModShift(|rows| - |ring|, |ring|);
  }

  lemma SumStep(rows: seq<Row>, row: Row, w: nat, dim: nat, d: nat)
    requires Wide(rows, dim) && |row| == dim && d < dim && w > 0
    ensures Wide(rows + [row], dim)
    ensures Plain(rows + [row], First(|rows| + 1, w), |rows| + 1, d) + (if |rows| >= w then rows[|rows| - w][d] else 0)
         == Plain(rows, First(|rows|, w), |rows|, d) + row[d]
    ensures |rows| >= w ==> Plain(rows, First(|rows|, w), |rows|, d) >= rows[|rows| - w][d]
  {
    var n := |rows|;
    PlainPrefix(rows, rows + [row], First(n, w), n, d);
    if n >= w {
      PlainFront(rows, n - w, n, d);
      PlainFront(rows + [row], n - w, n + 1, d);
    }
  }

  /** What the sums of all dimensions become with a new tick. */
  lemma SumsStep(sum: Row, rows: seq<Row>, row: Row, w: nat, dim: nat, sum': Row)
    requires SumOk(sum, rows, w, dim) && |row| == dim && w > 0 && |sum'| == dim
    requires forall d: nat :: d < dim ==> sum'[d] + (if |rows| >= w then rows[|rows| - w][d] else 0) == sum[d] + row[d]
    ensures SumOk(sum', rows + [row], w, dim)
  {
    forall d: nat | d < dim ensures sum'[d] == Plain(rows + [row], First(|rows| + 1, w), |rows| + 1, d) {
      SumStep(rows, row, w, dim, d);
    }
    assert Wide(rows + [row], dim);
    assert sum' == PlainRow(rows + [row], First(|rows| + 1, w), |rows| + 1, dim);
  }

  lemma SumsLeave(sum: Row, rows: seq<Row>, w: nat, dim: nat)
    requires SumOk(sum, rows, w, dim) && w > 0 && |rows| >= w
    ensures |sum| == dim && forall d: nat :: d < dim ==> rows[|rows| - w][d] <= sum[d]
  {
    forall d: nat | d < dim ensures rows[|rows| - w][d] <= sum[d] {
      PlainFront(rows, |rows| - w, |rows|, d);
    }
  }

  // ----- The log while the epoch runs -----

  /** Tick `i + half` scored with the plain window [i, i + 2 half]. */
  ghost predicate InteriorAt(cfg: Config, rows: seq<Row>, log: seq<Scored>, i: nat)
    requires cfg.Valid() && Wide(rows, cfg.Dim()) && i < |log| && |log| + 2 * cfg.Half() <= |rows|
  {
    log[i] == Scored(i + cfg.Half(), rows[i + cfg.Half()], PlainRow(rows, i, i + cfg.Size(), cfg.Dim()))
  }

  /** Every interior tick seen so far is scored once. */
  ghost predicate InteriorOk(cfg: Config, rows: seq<Row>, log: seq<Scored>) {
    && cfg.Valid() && Wide(rows, cfg.Dim()) && |log| == First(|rows|, 2 * cfg.Half())
    && forall i: nat :: i < |log| ==> InteriorAt(cfg, rows, log, i)
  }

  lemma PlainRowPrefix(rows: seq<Row>, row: Row, lo: nat, hi: nat, dim: nat)
    requires Wide(rows, dim) && |row| == dim && lo <= hi <= |rows|
    ensures Wide(rows + [row], dim) && PlainRow(rows + [row], lo, hi, dim) == PlainRow(rows, lo, hi, dim)
  {
    var a, b := PlainRow(rows, lo, hi, dim), PlainRow(rows + [row], lo, hi, dim);
    forall d: nat | d < dim ensures a[d] == b[d] {
      PlainPrefix(rows, rows + [row], lo, hi, d);
    }
  }

  lemma InteriorKept(cfg: Config, rows: seq<Row>, log: seq<Scored>, row: Row)
    requires InteriorOk(cfg, rows, log) && |row| == cfg.Dim()
    ensures Wide(rows + [row], cfg.Dim())
    ensures forall i: nat :: i < |log| ==> InteriorAt(cfg, rows + [row], log, i)
  {
    assert Wide(rows + [row], cfg.Dim());
    forall i: nat | i < |log| ensures InteriorAt(cfg, rows + [row], log, i) {
      assert InteriorAt(cfg, rows, log, i);
      PlainRowPrefix(rows, row, i, i + cfg.Size(), cfg.Dim());
    }
  }

  /** A tick that completes a window scores its centre. */
  lemma InteriorStep(cfg: Config, rows: seq<Row>, log: seq<Scored>, row: Row, e: Scored)
    requires InteriorOk(cfg, rows, log) && |row| == cfg.Dim() && |rows| >= 2 * cfg.Half()
    requires Wide(rows + [row], cfg.Dim())
    requires var c := |rows| - cfg.Half();
             e == Scored(c, (rows + [row])[c],
                         PlainRow(rows + [row], First(|rows| + 1, cfg.Size()), |rows| + 1, cfg.Dim()))
    ensures InteriorOk(cfg, rows + [row], log + [e])
  {
    InteriorKept(cfg, rows, log, row);
    forall i: nat | i < |log| + 1 ensures InteriorAt(cfg, rows + [row], log + [e], i) {
      if i < |log| {
        assert InteriorAt(cfg, rows + [row], log, i);
      }
    }
  }

  lemma InteriorQuiet(cfg: Config, rows: seq<Row>, log: seq<Scored>, row: Row)
    requires InteriorOk(cfg, rows, log) && |row| == cfg.Dim() && |rows| < 2 * cfg.Half()
    ensures InteriorOk(cfg, rows + [row], log)
  {
    assert Wide(rows + [row], cfg.Dim());
  }

  // ----- The log at the edge -----

  /** The tick that stands at place `i` of the log: the epoch read round from tick `half`. */
  ghost function Turn(cfg: Config, n: nat, i: nat): (t: nat)
    requires cfg.Valid() && i < n && cfg.Half() < n
    ensures t < n
  {
    if cfg.Half() + i < n then cfg.Half() + i else cfg.Half() + i - n
  }

  ghost predicate ExactAt(cfg: Config, rows: seq<Row>, log: seq<Scored>, i: nat)
    requires cfg.Valid() && Wide(rows, cfg.Dim()) && i < |log| <= |rows| && cfg.Half() < |rows|
  {
    log[i] == Exact(cfg, rows, Turn(cfg, |rows|, i))
  }

  /** The log holds the first |log| ticks of the turn, each with its observation and circular window. */
  ghost predicate ExactOk(cfg: Config, rows: seq<Row>, log: seq<Scored>) {
    && cfg.Valid() && Wide(rows, cfg.Dim()) && |log| <= |rows| && cfg.Half() < |rows|
    && forall i: nat :: i < |log| ==> ExactAt(cfg, rows, log, i)
  }

  /** Interior windows do not wrap, so the scores given on the way are the circular ones. */
  lemma InteriorExact(cfg: Config, rows: seq<Row>, log: seq<Scored>)
    requires InteriorOk(cfg, rows, log) && |rows| >= cfg.Size()
    ensures ExactOk(cfg, rows, log)
  {
    forall i: nat | i < |log| ensures ExactAt(cfg, rows, log, i) {
      assert InteriorAt(cfg, rows, log, i);
      var h, dim := cfg.Half(), cfg.Dim();
      PlainWindow(rows, i, h, dim);
    }
  }

  lemma PlainWindow(rows: seq<Row>, i: nat, h: nat, dim: nat)
    requires Wide(rows, dim) && i + 2 * h + 1 <= |rows|
    ensures PlainRow(rows, i, i + 2 * h + 1, dim) == Window(rows, i + h, h, dim)
  {
    var a, b := PlainRow(rows, i, i + 2 * h + 1, dim), Window(rows, i + h, h, dim);
    forall d: nat | d < dim ensures a[d] == b[d] {
      CircPlain(rows, i, 2 * h + 1, d);
      assert i + h - h == i;
    }
  }

  /** The first window at the edge: the last 2 half ticks and tick 0. */
  lemma EdgeWindow(rows: seq<Row>, h: nat, dim: nat, sum: Row)
    requires Wide(rows, dim) && 2 * h < |rows| && |sum| == dim
    requires forall d: nat :: d < dim ==> sum[d] == Plain(rows, |rows| - 2 * h, |rows|, d) + rows[0][d]
    ensures sum == Window(rows, |rows| - h, h, dim)
  {
    var n, w := |rows|, Window(rows, |rows| - h, h, dim);
    forall d: nat | d < dim ensures sum[d] == w[d] {
      CircPlain(rows, n - 2 * h, 2 * h, d);
      assert n - h - h == n - 2 * h;
      assert n - 2 * h + (2 * h + 1) - 1 == n;
      ModWrap(n, n);
    }
  }

  /** The ticks that leave and enter when the window moves on from centre `c`. */
  function Leaving(c: nat, h: nat, n: nat): int {
    if c >= h then c - h else c + n - h
  }

  function Entering(c: nat, h: nat, n: nat): int {
    if c + h + 1 < n then c + h + 1 else c + h + 1 - n
  }

  function Next(c: nat, n: nat): nat {
    if c + 1 < n then c + 1 else 0
  }

  lemma SlideAt(rows: seq<Row>, c: nat, h: nat, d: nat)
    requires |rows| > 2 * h && c < |rows| && forall t: nat :: t < |rows| ==> d < |rows[t]|
    ensures 0 <= Leaving(c, h, |rows|) < |rows| && 0 <= Entering(c, h, |rows|) < |rows|
    ensures var n, w := |rows|, 2 * h + 1;
            && Circ(rows, Next(c, n) - h, w, d)
                == Circ(rows, c - h, w, d) - rows[Leaving(c, h, n)][d] + rows[Entering(c, h, n)][d]
            && rows[Leaving(c, h, n)][d] <= Circ(rows, c - h, w, d)
  {
    var n, w := |rows|, 2 * h + 1;
    CircSlide(rows, c - h, w, d);
    ModWrap(c - h, n);
    ModWrap(c + h + 1, n);
    assert c - h + w == c + h + 1;
    CircPeriod(rows, 0 - h, w, d);
    assert c + 1 == n ==> c - h + 1 == 0 - h + n;
  }

  /** The rows that leave and enter turn the window of `c` into the window of the next tick. */
  lemma SlideWindow(rows: seq<Row>, c: nat, h: nat, dim: nat, sum: Row)
    requires Wide(rows, dim) && |rows| > 2 * h && c < |rows|
    ensures 0 <= Leaving(c, h, |rows|) < |rows| && 0 <= Entering(c, h, |rows|) < |rows|
    ensures forall d: nat :: d < dim ==> rows[Leaving(c, h, |rows|)][d] <= Window(rows, c, h, dim)[d]
    ensures |sum| == dim
            && (forall d: nat :: d < dim ==>
                  sum[d] == Window(rows, c, h, dim)[d] - rows[Leaving(c, h, |rows|)][d]
                      + rows[Entering(c, h, |rows|)][d])
            ==> sum == Window(rows, Next(c, |rows|), h, dim)
  {
    forall d: nat | d < dim
      ensures rows[Leaving(c, h, |rows|)][d] <= Window(rows, c, h, dim)[d]
      ensures Window(rows, Next(c, |rows|), h, dim)[d]
           == Window(rows, c, h, dim)[d] - rows[Leaving(c, h, |rows|)][d] + rows[Entering(c, h, |rows|)][d]
    {
      SlideAt(rows, c, h, d);
    }
  }

  lemma ExactStep(cfg: Config, rows: seq<Row>, log: seq<Scored>, e: Scored)
    requires ExactOk(cfg, rows, log) && |log| < |rows| && e == Exact(cfg, rows, Turn(cfg, |rows|, |log|))
    ensures ExactOk(cfg, rows, log + [e])
  {
    forall i: nat | i < |log| + 1 ensures ExactAt(cfg, rows, log + [e], i) {
      if i < |log| {
        assert ExactAt(cfg, rows, log, i);
      }
    }
  }

  // ----- Bounds -----

  /** The column sums of the last `w` ticks are small. */
  lemma SumsSmall(sum: Row, rows: seq<Row>, w: nat, dim: nat)
    requires SumOk(sum, rows, w, dim) && Small(rows)
    ensures SmallRow(sum, w * TX_PER_TICK)
  {
    forall d: nat | d < |sum| ensures sum[d] <= w * TX_PER_TICK {
      PlainBounded(rows, First(|rows|, w), |rows|, d);
    }
  }

  lemma EdgeSmall(rows: seq<Row>, lo: nat, hi: nat, cfg: Config)
    requires cfg.Narrow() && Wide(rows, cfg.Dim()) && Small(rows) && lo <= hi <= |rows| && hi <= lo + cfg.Size()
    ensures forall t: nat, d: nat :: t < |rows| && d < cfg.Dim() ==> Plain(rows, lo, hi, d) + rows[t][d] <= MAX_U64
  {
    forall t: nat, d: nat | t < |rows| && d < cfg.Dim() ensures Plain(rows, lo, hi, d) + rows[t][d] <= MAX_U64 {
      PlainBounded(rows, lo, hi, d);
      assert SmallRow(rows[t], TX_PER_TICK);
    }
  }

  lemma WindowSmall(rows: seq<Row>, c: int, cfg: Config)
    requires cfg.Narrow() && |rows| > 0 && Wide(rows, cfg.Dim()) && Small(rows)
    ensures SmallRow(Window(rows, c, cfg.Half(), cfg.Dim()), cfg.WindowMax())
  {
    var w := Window(rows, c, cfg.Half(), cfg.Dim());
    forall d: nat | d < |w| ensures w[d] <= cfg.WindowMax() {
      CircBounded(rows, c - cfg.Half(), cfg.Size(), d, TX_PER_TICK);
    }
  }

  /** One dimension more in the sums of squares. */
  lemma SquaresStep(cfg: Config, root: nat -> nat, observed: Row, window: Row, d: nat)
    requires cfg.Valid() && d < |observed| == |window| && TickFits(cfg, root, observed, window)
    ensures cfg.Size() * observed[d] <= MAX_U64
    ensures var deficit, cap := Deficit(cfg, d, window[d], cfg.Size() * observed[d]), Capacity(cfg, d, window[d]);
            && deficit <= cap <= MAX_U64 && deficit * deficit <= cap * cap <= MAX_U64
            && SumDeficit(cfg, observed, window, d + 1)
                == SumDeficit(cfg, observed, window, d) + deficit * deficit <= MAX_U64
            && SumCapacity(cfg, window, d + 1) == SumCapacity(cfg, window, d) + cap * cap <= MAX_U64
  {
    assert DimensionFits(cfg, d, observed[d], window[d]);
    var n := d + 1;
    assert SumsFitAt(cfg, observed, window, n);
    var deficit, cap := Deficit(cfg, d, window[d], cfg.Size() * observed[d]), Capacity(cfg, d, window[d]);
    Products(deficit, deficit, cap, cap);
  }

  /** The scores of an epoch are small enough for their factors. */
  lemma TalliesFit(cfg: Config, root: nat -> nat, log: seq<Scored>, scores: seq<nat>)
    requires cfg.Valid() && ScoredOk(cfg, log) && IsRoot(root) && |log| <= TICK_LIMIT
    requires forall k: nat :: k < |scores| ==> scores[k] == Tally(cfg, root, log, k)
    ensures ScoresFit(scores, SCALE)
  {
    forall k: nat | k < |scores| ensures SCALE * scores[k] <= MAX_U64 {
      TallyBounded(cfg, root, log, k);
    }
  }

  // ----- The running state -----

  /** Adds a row to column sums in place. */
  method AddRow(sum: array<u64>, row: Row)
    requires sum.Length == |row| && forall d: nat :: d < |row| ==> sum[d] + row[d] <= MAX_U64
    modifies sum
    ensures forall d: nat :: d < |row| ==> sum[d] == old(sum[d]) + row[d]
  {
    for d := 0 to sum.Length
      invariant forall k: nat :: k < sum.Length ==> sum[k] == if k < d then old(sum[k]) + row[k] else old(sum[k])
    {
      sum[d] := sum[d] + row[d];
    }
  }

  method SubtractRow(sum: array<u64>, row: Row)
    requires sum.Length == |row| && forall d: nat :: d < |row| ==> row[d] <= sum[d]
    modifies sum
    ensures forall d: nat :: d < |row| ==> sum[d] == old(sum[d]) - row[d]
  {
    for d := 0 to sum.Length
      invariant forall k: nat :: k < sum.Length ==> sum[k] == if k < d then old(sum[k]) - row[k] else old(sum[k])
    {
      sum[d] := sum[d] - row[d];
    }
  }

  /** The observation as stored: 16 bits of each count, which is all of it for the counts of one tick. */
  function Stored(obs: seq<nat>): (row: Row)
    ensures |row| == |obs| && forall d: nat :: d < |obs| ==> row[d] == obs[d] % 0x1_0000
    ensures SmallRow(obs, 4096) ==> row == obs
  {
    seq(|obs|, (d: nat) requires d < |obs| => obs[d] % 0x1_0000)
  }

  class MultiDimRevenue {
    const cfg: Config
    const root: nat -> nat
    const ring: array<Row>
    const head: array<Row>
    const windowSum: array<u64>
    const edgeWindowSum: array<u64>
    const txScore: array<u64>
    ghost var rows: seq<Row>
    ghost var log: seq<Scored>

    /** The buffers have their sizes and do not overlap. */
    ghost predicate Shape()
      reads this
    {
      && cfg.Narrow() && IsRoot(root) && ring != head
      && ring.Length == cfg.Size() && head.Length == 2 * cfg.Half()
      && windowSum.Length == edgeWindowSum.Length == cfg.Dim() && txScore.Length == cfg.computors
      && windowSum != edgeWindowSum && windowSum != txScore && edgeWindowSum != txScore
    }

    /** Each computor has been given the scores of its ticks in the log. */
    ghost predicate Tallied()
      requires Shape()
      reads this, txScore
    {
      ScoredOk(cfg, log) && forall k: nat :: k < cfg.computors ==> txScore[k] == Tally(cfg, root, log, k)
    }

    ghost predicate Buffered()
      requires Shape()
      reads this, ring, head
    {
      RingOk(ring[..], rows) && HeadOk(head[..], rows) && Wide(rows, cfg.Dim()) && Small(rows)
    }

    ghost predicate Valid()
      reads this, ring, head, windowSum, txScore
    {
      && Shape() && Buffered() && Tallied() && cfg.Fits() && cfg.TicksFit(|rows|)
      && SumOk(windowSum[..], rows, cfg.Size(), cfg.Dim()) && InteriorOk(cfg, rows, log)
    }

    constructor (cfg: Config, root: nat -> nat)
      requires cfg.Fits() && cfg.TicksFit(0) && IsRoot(root)
      ensures Valid() && this.cfg == cfg && this.root == root && rows == [] && log == []
      ensures fresh(ring) && fresh(head) && fresh(windowSum) && fresh(edgeWindowSum) && fresh(txScore)
    {
      SizeFits(cfg);
      this.cfg := cfg;
      this.root := root;
      ring := new Row[2 * cfg.Half() + 1](_ => []);
      head := new Row[2 * cfg.Half()](_ => []);
      windowSum := new u64[cfg.Dim()](_ => 0);
      edgeWindowSum := new u64[cfg.Dim()](_ => 0);
      txScore := new u64[cfg.computors](_ => 0);
      rows, log := [], [];
      new;
      assert windowSum[..] == PlainRow(rows, 0, 0, cfg.Dim());
    }

    /** Adds up the squares of deficits and capacities. */
    method SquareSums(observed: Row, sum: array<u64>) returns (sumDef: u64, sumCap: u64)
      requires Shape() && |observed| == cfg.Dim() == sum.Length && TickFits(cfg, root, observed, sum[..])
      ensures sumDef == SumDeficit(cfg, observed, sum[..], cfg.Dim()) && sumCap == SumCapacity(cfg, sum[..], cfg.Dim())
    {
      sumDef, sumCap := 0, 0;
      for d := 0 to cfg.Dim()
        invariant sumDef == SumDeficit(cfg, observed, sum[..], d) && sumCap == SumCapacity(cfg, sum[..], d)
      {
        SquaresStep(cfg, root, observed, sum[..], d);
        var ws: u64 := sum[d];
        var wo: u64 := cfg.Size() * observed[d];
        var deficit: u64 := Deficit(cfg, d, ws, wo);
        var cap: u64 := Capacity(cfg, d, ws);
        var deficitSquare: u64, capSquare: u64 := deficit * deficit, cap * cap;
        sumDef := sumDef + deficitSquare;
        sumCap := sumCap + capSquare;
      }
    }

    /** The score of one tick. */
    method ComputeScore(observed: Row, sum: array<u64>) returns (tickScore: u64)
      requires Shape() && |observed| == cfg.Dim() == sum.Length && TickFits(cfg, root, observed, sum[..])
      ensures tickScore == TickScore(cfg, root, observed, sum[..]) <= SCALE
    {
      var sumDef, sumCap := SquareSums(observed, sum);
      DeficitWithin(cfg, observed, sum[..], cfg.Dim());
      tickScore := ScoreOf(sumDef, sumCap);
    }

    /** Scores tick `c` from its observation and the sums of its window. No number leaves 64 bits. */
    method FinalizeTickScore(c: nat, observed: Row, sum: array<u64>)
      requires Shape() && Tallied() && |observed| == cfg.Dim() && sum.Length == cfg.Dim() && sum != txScore
      requires SmallRow(observed, TX_PER_TICK) && SmallRow(sum[..], cfg.WindowMax())
      requires |log| < TICK_LIMIT && cfg.TicksFit(c + 1) && cfg.Fits()
      modifies this`log, txScore
      ensures Tallied() && log == old(log) + [Scored(c, observed, old(sum[..]))]
      ensures forall k: nat :: k < cfg.computors ==>
                txScore[k] == old(txScore[k]) + if k == (cfg.initialTick + c) % cfg.computors
                                                then TickScore(cfg, root, observed, old(sum[..])) else 0
      ensures TickFits(cfg, root, observed, old(sum[..]))
    {
      ghost var window := sum[..];
      TickSumsFit(cfg, root, observed, window);
      var tickScore := ComputeScore(observed, sum);
      GiveScore(c, tickScore, Scored(c, observed, window));
    }

    method ScoreOf(sumDef: u64, sumCap: u64) returns (tickScore: u64)
      requires IsRoot(root) && sumDef <= sumCap
      ensures tickScore == Score(root, sumDef, sumCap) <= SCALE
    {
      ScoreRange(root, sumDef, sumCap);
      tickScore := SCALE;
      if sumCap != 0 {
        RootFits(root, sumDef);
        RootFits(root, sumCap);
        var pen: u64, cap: u64 := root(sumDef), root(sumCap);
        var scaled: u64 := SCALE * pen;
        tickScore := SCALE - scaled / cap;
      }
    }

    method GiveScore(c: nat, tickScore: u64, ghost e: Scored)
      requires Shape() && Tallied() && e.tick == c && |e.observed| == |e.window| && |log| < TICK_LIMIT
      requires cfg.TicksFit(c + 1)
      requires tickScore == TickScore(cfg, root, e.observed, e.window) <= SCALE
      modifies this`log, txScore
      ensures Tallied() && log == old(log) + [e]
      ensures forall k: nat :: k < cfg.computors ==>
                txScore[k] == old(txScore[k]) + if k == (cfg.initialTick + c) % cfg.computors then tickScore else 0
    {
      var leader := (cfg.initialTick + c) % cfg.computors;
      TallyBounded(cfg, root, log, leader);
      txScore[leader] := txScore[leader] + tickScore;
      log := log + [e];
      assert log[..|log| - 1] == old(log);
    }

    /** Takes the tick that leaves the window out of the column sums and the new one in. */
    method SlideSums(t: nat, row: Row)
      requires Shape() && Buffered() && SumOk(windowSum[..], rows, cfg.Size(), cfg.Dim()) && t == |rows|
      requires |row| == cfg.Dim() && SmallRow(row, TX_PER_TICK)
      modifies windowSum
      ensures SumOk(windowSum[..], rows + [row], cfg.Size(), cfg.Dim())
    {
      ghost var sum := windowSum[..];
      SumsSmall(sum, rows, cfg.Size(), cfg.Dim());
      if t >= cfg.Size() {
        RingEvict(ring[..], rows);
        SumsLeave(sum, rows, cfg.Size(), cfg.Dim());
        SubtractRow(windowSum, ring[t % cfg.Size()]);
      }
      AddRow(windowSum, row);
      SumsStep(sum, rows, row, cfg.Size(), cfg.Dim(), windowSum[..]);
    }

    /** Writes a tick into ring and head and brings the column sums up to date. */
    method TakeTick(t: nat, obs: seq<nat>)
      requires Shape() && Buffered() && SumOk(windowSum[..], rows, cfg.Size(), cfg.Dim()) && t == |rows|
      requires |obs| == cfg.Dim() && SmallRow(obs, TX_PER_TICK)
      modifies this`rows, ring, head, windowSum
      ensures Buffered() && SumOk(windowSum[..], rows, cfg.Size(), cfg.Dim()) && rows == old(rows) + [obs]
    {
      var slot := t % cfg.Size();
      var row := Stored(obs);
      SlideSums(t, row);
      RingStep(ring[..], rows, row);
      ring[slot] := row;
      if t < 2 * cfg.Half() {
        head[t] := row;
      }
      rows := rows + [row];
      assert ring[..] == old(ring[..])[slot := row];
    }

    method RevenueOnTick(t: nat, obs: seq<nat>)
      requires Valid() && t == |rows| && |obs| == cfg.computors + cfg.contracts + 1 && SmallRow(obs, 4096)
      requires cfg.TicksFit(t + 1)
      modifies this`rows, this`log, ring, head, windowSum, txScore
      ensures Valid() && rows == old(rows) + [obs]
    {
      ghost var rows0, log0 := rows, log;
      TakeTick(t, obs);
      if t >= 2 * cfg.Half() {
        ScoreCentre(t - cfg.Half(), rows0, obs);
      } else {
        InteriorQuiet(cfg, rows0, log0, obs);
      }
    }

    /** Scores the centre of the window that tick `c + half` has completed. */
    method ScoreCentre(c: nat, ghost rows0: seq<Row>, ghost row: Row)
      requires Shape() && Buffered() && Tallied() && InteriorOk(cfg, rows0, log) && |row| == cfg.Dim()
      requires rows == rows0 + [row] && |rows0| == c + cfg.Half() >= 2 * cfg.Half() && cfg.TicksFit(|rows|)
      requires SumOk(windowSum[..], rows, cfg.Size(), cfg.Dim()) && cfg.Fits()
      modifies this`log, txScore
      ensures Tallied() && InteriorOk(cfg, rows, log)
    {
      ghost var log0 := log;
      assert RingAt(ring[..], rows, c) && SmallRow(rows[c], TX_PER_TICK);
      SumsSmall(windowSum[..], rows, cfg.Size(), cfg.Dim());
      FinalizeTickScore(c, ring[c % cfg.Size()], windowSum);
      InteriorStep(cfg, rows0, log0, row, log[|log| - 1]);
    }

    /** Reads a tick from where it is still held. */
    method ObsAt(x: nat) returns (row: Row)
      requires Shape() && Buffered() && x < |rows| && (x < 2 * cfg.Half() || |rows| <= x + cfg.Size())
      ensures row == rows[x]
    {
      if x < 2 * cfg.Half() {
        row := head[x];
      } else {
        assert RingAt(ring[..], rows, x);
        row := ring[x % cfg.Size()];
      }
    }

    /** The sums of the window of tick N - half: the last ticks and tick 0. */
    method StartEdge(n: nat)
      requires Shape() && Buffered() && n == |rows| >= cfg.Size()
      modifies edgeWindowSum
      ensures edgeWindowSum[..] == Window(rows, n - cfg.Half(), cfg.Half(), cfg.Dim())
    {
      for d := 0 to cfg.Dim()
        invariant forall k: nat :: k < d ==> edgeWindowSum[k] == 0
      {
        edgeWindowSum[d] := 0;
      }
      for x := n - 2 * cfg.Half() to n
        invariant forall d: nat :: d < cfg.Dim() ==> edgeWindowSum[d] == Plain(rows, n - 2 * cfg.Half(), x, d)
      {
        assert RingAt(ring[..], rows, x);
        EdgeSmall(rows, n - 2 * cfg.Half(), x, cfg);
        AddRow(edgeWindowSum, ring[x % cfg.Size()]);
      }
      EdgeSmall(rows, n - 2 * cfg.Half(), n, cfg);
      AddRow(edgeWindowSum, head[0]);
      EdgeWindow(rows, cfg.Half(), cfg.Dim(), edgeWindowSum[..]);
    }

    /** Moves the edge window on from centre `c`. */
    method SlideEdge(n: nat, c: nat)
      requires Shape() && Buffered() && n == |rows| >= cfg.Size() && (c + 1 < cfg.Half() || n - cfg.Half() <= c < n)
      requires edgeWindowSum[..] == Window(rows, c, cfg.Half(), cfg.Dim())
      modifies edgeWindowSum
      ensures edgeWindowSum[..] == Window(rows, Next(c, n), cfg.Half(), cfg.Dim())
    {
      ghost var sum := edgeWindowSum[..];
      SlideWindow(rows, c, cfg.Half(), cfg.Dim(), sum);
      WindowSmall(rows, c, cfg);
      var lv := ObsAt(Leaving(c, cfg.Half(), n));
      var en := ObsAt(Entering(c, cfg.Half(), n));
      SubtractRow(edgeWindowSum, lv);
      assert SmallRow(en, TX_PER_TICK);
      AddRow(edgeWindowSum, en);
      SlideWindow(rows, c, cfg.Half(), cfg.Dim(), edgeWindowSum[..]);
    }

    /** Scores the centre `c` of the edge window, the next tick of the turn. */
    method ScoreEdgeTick(n: nat, c: nat)
      requires Shape() && Buffered() && Tallied() && ExactOk(cfg, rows, log) && n == |rows| >= cfg.Size()
      requires |log| < n && c == Turn(cfg, n, |log|) && (c < cfg.Half() || n - cfg.Half() <= c)
      requires edgeWindowSum[..] == Window(rows, c, cfg.Half(), cfg.Dim()) && cfg.TicksFit(n) && cfg.Fits()
      modifies this`log, txScore
      ensures Tallied() && ExactOk(cfg, rows, log) && |log| == old(|log|) + 1
    {
      ghost var log0 := log;
      var observed := ObsAt(c);
      WindowSmall(rows, c, cfg);
      assert SmallRow(rows[c], TX_PER_TICK);
      FinalizeTickScore(c, observed, edgeWindowSum);
      ExactStep(cfg, rows, log0, log[|log| - 1]);
    }

    /** Scores the ticks whose window wraps round the epoch. Every tick has then been scored exactly once,
        with its own observation and the circular sum around it; a shorter epoch scores nothing. */
    method ScoreEpochEdgeTicks(n: nat)
      requires Valid() && n == |rows|
      modifies this`log, txScore, edgeWindowSum
      ensures Shape() && Tallied()
      ensures n < cfg.Size() ==> log == []
      ensures n >= cfg.Size() ==> |log| == n && ExactOk(cfg, rows, log)
      ensures ScoresFit(txScore[..], SCALE)
    {
      var h := cfg.Half();
      if n < cfg.Size() {
        TalliesFit(cfg, root, log, txScore[..]);
        return;
      }
      InteriorExact(cfg, rows, log);
      StartEdge(n);
      var c := n - h;
      for step := 0 to 2 * h
        invariant Tallied() && ExactOk(cfg, rows, log) && |log| == n - 2 * h + step
        invariant step < 2 * h ==>
                    c == Turn(cfg, n, n - 2 * h + step) && edgeWindowSum[..] == Window(rows, c, h, cfg.Dim())
      {
        ScoreEdgeTick(n, c);
        if step + 1 < 2 * h {
          SlideEdge(n, c);
          c := Next(c, n);
        }
      }
      TalliesFit(cfg, root, log, txScore[..]);
    }
  }

  /** The epoch's scores are those of the batch in tick order. */
  lemma {:induction false} EpochScores(cfg: Config, root: nat -> nat, rows: seq<Row>, log: seq<Scored>, k: nat)
    requires ExactOk(cfg, rows, log) && |log| == |rows|
    ensures ScoredOk(cfg, log) && Tally(cfg, root, log, k) == Tally(cfg, root, Batch(cfg, rows), k)
  {
    forall i: nat | i < |rows|
      ensures log[i] == Exact(cfg, rows, if cfg.Half() + i < |rows| then cfg.Half() + i else cfg.Half() + i - |rows|)
    {
      assert ExactAt(cfg, rows, log, i);
    }
    RotationTally(cfg, root, rows, log, cfg.Half(), k);
  }

  /** In numbers: computor `k` has the scores of the ticks t with (initialTick + t) % computors == k, each with the
      window of computors - 1 ticks on either side. */
  lemma EpochTotal(cfg: Config, root: nat -> nat, rows: seq<Row>, log: seq<Scored>, k: nat)
    requires ExactOk(cfg, rows, log) && |log| == |rows| && Wide(rows, cfg.computors + cfg.contracts + 1)
    ensures ScoredOk(cfg, log)
    ensures Tally(cfg, root, log, k)
         == Sum(|rows|, (t: nat) =>
              if t < |rows| && (cfg.initialTick + t) % cfg.computors == k
              then TickScore(cfg, root, rows[t],
                             Window(rows, t, cfg.computors - 1, cfg.computors + cfg.contracts + 1))
              else 0)
  {
    EpochScores(cfg, root, rows, log, k);
    BatchIsSum(cfg, root, rows, k);
  }

  /** Every tick of the epoch stands at exactly one place of the log. */
  lemma ScoredOnce(cfg: Config, rows: seq<Row>, log: seq<Scored>, t: nat)
    requires ExactOk(cfg, rows, log) && |log| == |rows| && t < |rows|
    ensures exists i: nat ::
              && i < |log| && log[i] == Exact(cfg, rows, t)
              && forall j: nat :: j < |log| && log[j].tick == t ==> j == i
  {
    var h := cfg.Half();
    var i: nat := if t >= h then t - h else t + |rows| - h;
    assert ExactAt(cfg, rows, log, i);
    forall j: nat | j < |log| && log[j].tick == t ensures j == i {
      assert ExactAt(cfg, rows, log, j);
    }
  }
}
