/** Sums over windows of ticks, plain and circular. */
module RevenueWindow {
  import opened Remainders

  type Row = seq<nat>

  ghost predicate Wide(rows: seq<Row>, dim: nat) {
    forall t: nat :: t < |rows| ==> |rows[t]| == dim
  }

  // ----- Sums -----

  /** f(0) + ... + f(n - 1). */
  ghost function Sum(n: nat, f: nat -> int): int {
    if n == 0 then 0 else Sum(n - 1, f) + f(n - 1)
  }

  /** Dimension `d` summed over the ticks from `lo` to `hi - 1`. */
  ghost function Plain(rows: seq<Row>, lo: nat, hi: nat, d: nat): nat
    requires lo <= hi <= |rows| && forall t: nat :: t < |rows| ==> d < |rows[t]|
  {
    if lo == hi then 0 else Plain(rows, lo, hi - 1, d) + rows[hi - 1][d]
  }

  /** Dimension `d` summed over `n` ticks from `a` on, round the epoch. */
  ghost function Circ(rows: seq<Row>, a: int, n: nat, d: nat): nat
    requires |rows| > 0 && forall t: nat :: t < |rows| ==> d < |rows[t]|
  {
    if n == 0 then 0 else Circ(rows, a, n - 1, d) + rows[(a + n - 1) % |rows|][d]
  }

  lemma {:induction false} CircIsSum(rows: seq<Row>, a: int, n: nat, d: nat)
    requires |rows| > 0 && forall t: nat :: t < |rows| ==> d < |rows[t]|
    ensures Circ(rows, a, n, d) == Sum(n, j => rows[(a + j) % |rows|][d])
  {
    if n > 0 {
      CircIsSum(rows, a, n - 1, d);
      assert a + n - 1 == a + (n - 1);
    }
  }

  lemma {:induction false} CircFront(rows: seq<Row>, a: int, n: nat, d: nat)
    requires |rows| > 0 && forall t: nat :: t < |rows| ==> d < |rows[t]|
    ensures Circ(rows, a, n + 1, d) == rows[a % |rows|][d] + Circ(rows, a + 1, n, d)
  {
    if n > 0 {
      CircFront(rows, a, n - 1, d);
      assert a + 1 + n - 1 == a + (n + 1) - 1;
    } else {
      assert Circ(rows, a, 0, d) == 0 && a + 1 - 1 == a;
    }
  }

  /** Sliding the window by one tick. */
  lemma {:induction false} CircSlide(rows: seq<Row>, a: int, n: nat, d: nat)
    requires |rows| > 0 && forall t: nat :: t < |rows| ==> d < |rows[t]|
    ensures Circ(rows, a + 1, n, d) == Circ(rows, a, n, d) - rows[a % |rows|][d] + rows[(a + n) % |rows|][d]
    ensures Circ(rows, a, n, d) >= rows[a % |rows|][d] || n == 0
  {
    CircFront(rows, a, n, d);
    if n > 0 { CircFront(rows, a, n - 1, d); }
    assert Circ(rows, a, n + 1, d) == Circ(rows, a, n, d) + rows[(a + (n + 1) - 1) % |rows|][d];
    assert a + (n + 1) - 1 == a + n;
  }

  lemma {:induction false} CircPlain(rows: seq<Row>, a: nat, n: nat, d: nat)
    requires |rows| > 0 && (forall t: nat :: t < |rows| ==> d < |rows[t]|) && a + n <= |rows|
    ensures Circ(rows, a, n, d) == Plain(rows, a, a + n, d)
  {
    if n > 0 {
      CircPlain(rows, a, n - 1, d);
      ModSmall(a + n - 1, |rows|);
    }
  }

  lemma {:induction false} CircPeriod(rows: seq<Row>, a: int, n: nat, d: nat)
    requires |rows| > 0 && forall t: nat :: t < |rows| ==> d < |rows[t]|
    ensures Circ(rows, a + |rows|, n, d) == Circ(rows, a, n, d)
  {
    if n > 0 {
      CircPeriod(rows, a, n - 1, d);
      ModShift(a + n - 1, |rows|);
      assert a + |rows| + n - 1 == a + n - 1 + |rows|;
    }
  }

  lemma {:induction false} PlainFront(rows: seq<Row>, lo: nat, hi: nat, d: nat)
    requires lo < hi <= |rows| && forall t: nat :: t < |rows| ==> d < |rows[t]|
    ensures Plain(rows, lo, hi, d) == rows[lo][d] + Plain(rows, lo + 1, hi, d)
  {
    if lo + 1 < hi {
      PlainFront(rows, lo, hi - 1, d);
    } else {
      assert Plain(rows, lo, lo, d) == 0;
    }
  }

  lemma {:induction false} PlainPrefix(rows: seq<Row>, more: seq<Row>, lo: nat, hi: nat, d: nat)
    requires lo <= hi <= |rows| && rows <= more && (forall t: nat :: t < |more| ==> d < |more[t]|)
    ensures (forall t: nat :: t < |rows| ==> d < |rows[t]|) && Plain(rows, lo, hi, d) == Plain(more, lo, hi, d)
  {
    assert forall t: nat :: t < |rows| ==> rows[t] == more[t];
    if lo < hi {
      PlainPrefix(rows, more, lo, hi - 1, d);
    }
  }

  /** All dimensions of a plain sum. */
  ghost function PlainRow(rows: seq<Row>, lo: nat, hi: nat, dim: nat): (r: Row)
    requires lo <= hi <= |rows| && Wide(rows, dim)
    ensures |r| == dim && forall d: nat :: d < dim ==> r[d] == Plain(rows, lo, hi, d)
  {
    seq(dim, (d: nat) requires d < dim => Plain(rows, lo, hi, d))
  }

  /** The window of `h` ticks on either side of `c`, round the epoch, in all dimensions. */
  ghost function Window(rows: seq<Row>, c: int, h: nat, dim: nat): (r: Row)
    requires |rows| > 0 && Wide(rows, dim)
    ensures |r| == dim && forall d: nat :: d < dim ==> r[d] == Circ(rows, c - h, 2 * h + 1, d)
  {
    seq(dim, (d: nat) requires d < dim => Circ(rows, c - h, 2 * h + 1, d))
  }

  /** Entry by entry: the rows of the ticks `c - h` to `c + h`, counted round the epoch. */
  lemma WindowIsSum(rows: seq<Row>, c: int, h: nat, dim: nat, d: nat)
    requires |rows| > 0 && Wide(rows, dim) && d < dim
    ensures Window(rows, c, h, dim)[d] == Sum(2 * h + 1, j => rows[(c - h + j) % |rows|][d])
  {
    CircIsSum(rows, c - h, 2 * h + 1, d);
  }
}
