/** Remainders by a variable. */
module Remainders {
  lemma ModSmall(x: int, n: nat)
    requires 0 <= x < n
    ensures x % n == x
  {
  }

  lemma SmallMultiple(k: int, n: nat, d: int)
    requires d == k * n && 0 - n < d < n
    ensures k == 0
  {
    assert k >= 1 ==> k * n >= n;
    assert k <= -1 ==> (-k) * n >= n && (-k) * n == -(k * n);
  }

  lemma {:induction false} SameDivision(p: int, q: int, n: nat, r: int, s: int)
    requires p * n + r == q * n + s && 0 <= r < n && 0 <= s < n
    ensures r == s
  {
    assert (p - q) * n == p * n - q * n;
    SmallMultiple(p - q, n, s - r);
  }

  /** A remainder is the only small number a multiple away. */
  lemma {:induction false} ModIs(x: int, n: nat, q: int, r: int)
    requires 0 <= r < n && x == q * n + r
    ensures x % n == r
  {
    SameDivision(x / n, q, n, x % n, r);
  }

  lemma {:induction false} ModShift(x: int, n: nat)
    requires n > 0
    ensures (x + n) % n == x % n
  {
    var q := x / n;
    assert x == q * n + x % n;
    assert x + n == (q + 1) * n + x % n;
    ModIs(x + n, n, q + 1, x % n);
  }

  /** Within one turn, the remainder is the position or the position one turn off. */
  lemma ModWrap(x: int, n: nat)
    requires n > 0 && 0 - n <= x < 2 * n
    ensures x % n == if x < 0 then x + n else if x < n then x else x - n
  {
    if x < 0 {
      ModShift(x, n);
      ModSmall(x + n, n);
    } else if x < n {
      ModSmall(x, n);
    } else {
      ModShift(x - n, n);
      ModSmall(x - n, n);
    }
  }

  /** Positions less than `n` apart with the same remainder are the same. */
  lemma {:induction false} ModUnique(x: nat, y: nat, n: nat)
    requires n > 0 && x <= y < x + n && x % n == y % n
    ensures x == y
  {
    assert y == (y / n) * n + y % n && x == (x / n) * n + x % n;
    SmallMultiple(y / n - x / n, n, y - x);
  }
}
