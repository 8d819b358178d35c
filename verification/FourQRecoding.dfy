/** The three scalar recodings of FourQ: windowed non-adjacent form, the fixed-base comb
    and the four-way recoding with common signs. */
module FourQRecoding {
  import opened Limbs
  import opened Powers
  import opened FourQOrder

  // ----- Bounds by rounded-up halving -----

  /** `c <= 2^n`: after `n` halvings that round up at most 1 is left. */
  ghost predicate AtMost(c: int, n: nat)
    decreases n, c
  {
    if n == 0 then c <= 1 else AtMost((c + 1) / 2, n - 1)
  }

  lemma {:induction false} AtMostLess(c: int, c': int, n: nat)
    requires AtMost(c, n) && c' <= c
    ensures AtMost(c', n)
    decreases n
  {
    if n > 0 { AtMostLess((c + 1) / 2, (c' + 1) / 2, n - 1); }
  }

  lemma AtMost4(c: int, x: int, n: nat)
    requires AtMost(x, n) && c <= 16 * x
    ensures AtMost(c, n + 4)
  {
    var c1 := (c + 1) / 2;
    var c2 := (c1 + 1) / 2;
    var c3 := (c2 + 1) / 2;
    AtMostLess(x, (c3 + 1) / 2, n);
    assert AtMost(c3, n + 1) && AtMost(c2, n + 2) && AtMost(c1, n + 3);
  }

  /** Ceiling division. */
  function Ceil(c: int, d: int): (q: int)
    requires d > 0
    ensures c <= d * q
  {
    (c + d - 1) / d
  }

  lemma AtMost16(c: int, x: int, n: nat)
    requires AtMost(x, n) && c <= 0x1_0000 * x
    ensures AtMost(c, n + 16)
  {
    var c1 := Ceil(c, 16);
    var c2 := Ceil(c1, 16);
    var c3 := Ceil(c2, 16);
    AtMost4(c3, x, n);
    AtMost4(c2, c3, n + 4);
    AtMost4(c1, c2, n + 8);
    AtMost4(c, c1, n + 12);
  }

  lemma AtMost64(c: int, x: int, n: nat)
    requires AtMost(x, n) && c <= BASE * x
    ensures AtMost(c, n + 64)
  {
    var c1 := Ceil(c, 0x1_0000);
    var c2 := Ceil(c1, 0x1_0000);
    var c3 := Ceil(c2, 0x1_0000);
    AtMost16(c3, x, n);
    AtMost16(c2, c3, n + 16);
    AtMost16(c1, c2, n + 32);
    AtMost16(c, c1, n + 48);
  }

  lemma {:induction false} AtMostZero(n: nat)
    ensures AtMost(0, n)
  {
    if n > 0 { AtMostZero(n - 1); }
  }

  lemma AtMostCeil4(c: int, n: nat)
    requires AtMost(c, n + 4)
    ensures AtMost(Ceil(c, 16), n)
  {
    var c1 := (c + 1) / 2;
    var c2 := (c1 + 1) / 2;
    var c3 := (c2 + 1) / 2;
    assert AtMost(c1, n + 3) && AtMost(c2, n + 2) && AtMost(c3, n + 1);
    assert Ceil(c, 16) == (c3 + 1) / 2;
  }

  lemma {:induction false} AtMostValue(c: int, n: nat)
    requires AtMost(c, n)
    ensures c <= Pow2(n)
    decreases n
  {
    if n > 0 { AtMostValue((c + 1) / 2, n - 1); }
  }

  // ----- Windowed non-adjacent form -----

  /** The digits are 0 or odd with magnitude below 2^(w-1). */
  ghost predicate WnafDigit(d: int, w: nat)
    requires w >= 1
  {
    d == 0 || (d % 2 == 1 && 0 - Pow2(w - 1) < d < Pow2(w - 1))
  }

  /** `w` consecutive digits hold at most one that is not zero. */
  ghost predicate Sparse(ds: seq<int>, w: nat) {
    forall i: nat, j: nat :: i < j < |ds| && j < i + w && ds[i] != 0 ==> ds[j] == 0
  }

  ghost predicate WnafForm(ds: seq<int>, w: nat)
    requires w >= 1
  {
    (forall i: nat :: i < |ds| ==> WnafDigit(ds[i], w)) && Sparse(ds, w)
  }

  /** The odd digit taken from the low `w` bits of an odd scalar, and the scalar left over. */
  function Window(scalar: nat, w: nat): (r: (int, nat))
    requires (w == 4 || w == 8) && scalar % 2 == 1
    ensures r.0 != 0 && r.0 % 2 == 1 && scalar == r.0 + (if w == 4 then 16 else 256) * r.1
    ensures if w == 4 then -8 < r.0 < 8 else -128 < r.0 < 128
  {
    if w == 4 then Window4(scalar) else Window8(scalar)
  }

  function Window4(scalar: nat): (r: (int, nat))
    requires scalar % 2 == 1
    ensures r.0 % 2 == 1 && scalar == r.0 + 16 * r.1 && -8 < r.0 < 8
  {
    var digit, rest := scalar % 16, scalar / 16;
    assert digit + 2 * (8 * rest) == scalar;
    if digit > 7 then (digit - 16, rest + 1) else (digit, rest)
  }

  function Window8(scalar: nat): (r: (int, nat))
    requires scalar % 2 == 1
    ensures r.0 % 2 == 1 && scalar == r.0 + 256 * r.1 && -128 < r.0 < 128
  {
    var digit, rest := scalar % 256, scalar / 256;
    assert digit + 2 * (128 * rest) == scalar;
    if digit > 127 then (digit - 256, rest + 1) else (digit, rest)
  }

  /** Room: what is left of a 64-bit scalar after `index` digits, and that it never spills over digit 64. */
  ghost predicate Fits(scalar: nat, index: nat) {
    if index <= 64 then AtMost(scalar, 64 - index) else scalar == 0
  }

  lemma FitsHalf(scalar: nat, index: nat)
    requires Fits(scalar, index) && scalar > 0 && scalar % 2 == 0
    ensures index < 64 && Fits(scalar / 2, index + 1)
  {
  }

  lemma FitsWindow(scalar: nat, index: nat, w: nat)
    requires (w == 4 || w == 8) && Fits(scalar, index) && scalar % 2 == 1
    ensures var next := Window(scalar, w).1;
            && index <= 64 && (next > 0 ==> index + w <= 64 && Fits(next, index + w))
            && (next == 0 ==> Fits(next, index + 1))
  {
    if index < 64 { AtMostZero(63 - index); }
    var n, next := 64 - index, Window(scalar, w).1;
    if n >= w {
      AtMostCeil4(scalar, n - 4);
      if w == 4 {
        AtMostLess(Ceil(scalar, 16), next, n - 4);
      } else {
        AtMostCeil4(Ceil(scalar, 16), n - 8);
        AtMostLess(Ceil(Ceil(scalar, 16), 16), next, n - 8);
      }
    } else {
      AtMostValue(scalar, n);
      Pow2Monotone(n, w - 1);
      assert Pow2(3) == 8 && Pow2(7) == 128;
    }
  }

  /** State of the recoding: what has been written, what is left, and the gap after the last odd digit. */
  ghost predicate Recoding(ds: seq<int>, w: nat, scalar: nat, scalar0: nat)
    requires w >= 1
  {
    && WnafForm(ds, w) && Horner(ds, scalar) == scalar0
    && (scalar > 0 ==> forall i: nat :: i < |ds| && ds[i] != 0 ==> i + w <= |ds|)
  }

  lemma RecodeZero(ds: seq<int>, w: nat, scalar: nat, scalar0: nat)
    requires w >= 1 && Recoding(ds, w, scalar, scalar0) && scalar % 2 == 0
    ensures Recoding(ds + [0], w, scalar / 2, scalar0)
  {
    HornerAppend(ds, 0, scalar / 2);
  }

  /** The digit of a window followed by zeros. */
  lemma {:induction false} HornerZeros(ds: seq<int>, n: nat, tail: int)
    ensures Horner(ds + seq(n, _ => 0), tail) == Horner(ds, Shift(tail, n))
  {
    if n == 0 {
      assert ds + seq(0, _ => 0) == ds;
    } else {
      assert ds + seq(n, _ => 0) == ds + seq(n - 1, _ => 0) + [0];
      HornerAppend(ds + seq(n - 1, _ => 0), 0, tail);
      HornerZeros(ds, n - 1, 2 * tail);
      ShiftOut(tail, n - 1);
    }
  }

  lemma {:induction false} ShiftOut(e: int, n: nat)
    ensures Shift(2 * e, n) == 2 * Shift(e, n)
  {
    if n > 0 { ShiftOut(e, n - 1); }
  }

  /** A window digit and its zeros on top of digits that end with their own zeros. */
  lemma WindowForm(ds: seq<int>, w: nat, d: int, n: nat)
    requires w >= 1 && WnafForm(ds, w) && WnafDigit(d, w)
    requires forall i: nat :: i < |ds| && ds[i] != 0 ==> i + w <= |ds|
    ensures WnafForm(ds + [d] + seq(n, _ => 0), w)
  {
  }

  lemma WindowValue(ds: seq<int>, w: nat, d: int, next: int)
    requires w == 4 || w == 8
    ensures Horner(ds + [d] + seq(w - 1, _ => 0), next) == Horner(ds, d + (if w == 4 then 16 else 256) * next)
  {
    HornerZeros(ds + [d], w - 1, next);
    HornerAppend(ds, d, Shift(next, w - 1));
    assert 2 * Shift(next, w - 1) == Shift(next, w) && Shift(next, 0) == next;
    if w == 4 { Shift4(next, 0); } else { Shift16(next, 0); }
  }

  lemma RecodeWindow(ds: seq<int>, w: nat, scalar: nat, scalar0: nat)
    requires (w == 4 || w == 8) && Recoding(ds, w, scalar, scalar0) && scalar % 2 == 1
    ensures var (d, next) := Window(scalar, w);
            Recoding(ds + [d] + (if next > 0 then seq(w - 1, _ => 0) else []), w, next, scalar0)
  {
    var (d, next) := Window(scalar, w);
    assert Pow2(3) == 8 && Pow2(7) == 128;
    if next > 0 {
      WindowForm(ds, w, d, w - 1);
      WindowValue(ds, w, d, next);
    } else {
      WindowForm(ds, w, d, 0);
      HornerAppend(ds, d, next);
      assert ds + [d] + [] == ds + [d] && ds + [d] + seq(0, _ => 0) == ds + [d];
    }
  }

  /** Zeros on top change neither form nor value. */
  lemma RecodeFinish(ds: seq<int>, w: nat, scalar0: nat, n: nat)
    requires w >= 1 && Recoding(ds, w, 0, scalar0)
    ensures WnafForm(ds + seq(n, _ => 0), w) && Horner(ds + seq(n, _ => 0), 0) == scalar0
  {
    HornerZeros(ds, n, 0);
    ShiftZero(n);
  }

  /** `wNAF_recode` of a 64-bit scalar into 65 digits. */
  method WnafRecode(scalar0: u64, w: nat, digits: array<int>)
    requires (w == 4 || w == 8) && digits.Length == 65
    modifies digits
    ensures WnafForm(digits[..], w) && Horner(digits[..], 0) == scalar0
  {
    var scalar: nat, index: nat := scalar0, 0;
    StartRecode(w, scalar0);
    assert digits[..0] == [];
    while scalar != 0
      invariant index <= 65 && Fits(scalar, index) && Recoding(digits[..index], w, scalar, scalar0)
      decreases scalar
    {
      index, scalar := WnafStep(scalar, index, w, digits, scalar0);
    }
    RecodeFinish(digits[..index], w, scalar0, 65 - index);
    ZeroTail(digits, index);
  }

  lemma StartRecode(w: nat, scalar: u64)
    requires w >= 1
    ensures Fits(scalar, 0) && Recoding([], w, scalar, scalar)
  {
    assert AtMost(1, 0);
    AtMost64(scalar, 1, 0);
  }

  /** `setMem(&digits[index], 65 - index, 0)`. */
  method ZeroTail(digits: array<int>, index: nat)
    requires index <= digits.Length
    modifies digits
    ensures digits[..] == old(digits[..index]) + seq(digits.Length - index, _ => 0)
  {
    for i := index to digits.Length
      invariant digits[..index] == old(digits[..index])
      invariant forall j: nat :: index <= j < i ==> digits[j] == 0
    {
      digits[i] := 0;
    }
  }

  /** One pass of the recoding loop. */
  method WnafStep(scalar: nat, index: nat, w: nat, digits: array<int>, ghost scalar0: nat)
    returns (index': nat, scalar': nat)
    requires (w == 4 || w == 8) && digits.Length == 65 && scalar > 0
    requires index <= 65 && Fits(scalar, index) && Recoding(digits[..index], w, scalar, scalar0)
    modifies digits
    ensures index' <= 65 && scalar' < scalar && Fits(scalar', index') && Recoding(digits[..index'], w, scalar', scalar0)
  {
    ghost var ds := digits[..index];
    if scalar % 2 == 0 {
      FitsHalf(scalar, index);
      RecodeZero(ds, w, scalar, scalar0);
      digits[index] := 0;
      index', scalar' := index + 1, scalar / 2;
      assert digits[..index'] == ds + [0];
    } else {
      FitsWindow(scalar, index, w);
      RecodeWindow(ds, w, scalar, scalar0);
      index', scalar' := WnafOdd(scalar, index, w, digits);
    }
  }

  /** An odd scalar: its window digit, then zeros up to the next window if anything is left. */
  method WnafOdd(scalar: nat, index: nat, w: nat, digits: array<int>) returns (index': nat, scalar': nat)
    requires (w == 4 || w == 8) && digits.Length == 65 && scalar % 2 == 1
    requires index <= 64 && (Window(scalar, w).1 > 0 ==> index + w <= 64)
    modifies digits
    ensures scalar' == Window(scalar, w).1 && scalar' < scalar
    ensures index' == if scalar' > 0 then index + w else index + 1
    ensures digits[..index']
              == old(digits[..index]) + [Window(scalar, w).0] + (if scalar' > 0 then seq(w - 1, _ => 0) else [])
  {
    var (digit, next) := Window(scalar, w);
    scalar', index' := next, index;
    digits[index] := digit;
    assert digits[..index + 1] == old(digits[..index]) + [digit];
    if scalar' != 0 {
      index' := WriteZeros(digits, index, w - 1);
    }
    index' := index' + 1;
  }

  lemma {:induction false} ShiftZero(n: nat)
    ensures Shift(0, n) == 0
  {
    if n > 0 { ShiftZero(n - 1); }
  }

  method WriteZeros(digits: array<int>, index: nat, n: nat) returns (index': nat)
    requires index + n < digits.Length
    modifies digits
    ensures index' == index + n
    ensures digits[..index' + 1] == old(digits[..index + 1]) + seq(n, _ => 0)
  {
    index' := index;
    for i := 0 to n
      invariant index' == index + i
      invariant digits[..index' + 1] == old(digits[..index + 1]) + seq(i, _ => 0)
    {
      index' := index' + 1;
      digits[index'] := 0;
    }
  }

  // ----- Fixed-base comb -----

  /** In-place `scalar >> 1` over four limbs. */
  method ShiftRightLimbs(scalar: array<u64>)
    requires scalar.Length == 4
    modifies scalar
    ensures ValAt(scalar, 0) == old(ValAt(scalar, 0)) / 2
  {
    HalveLimbs(scalar[0], scalar[1], scalar[2], scalar[3]);
    scalar[0] := ShiftRight1(scalar[0], scalar[1]);
    scalar[1] := ShiftRight1(scalar[1], scalar[2]);
    scalar[2] := ShiftRight1(scalar[2], scalar[3]);
    scalar[3] := scalar[3] / 2;
  }

  lemma HalveLimbs(a0: u64, a1: u64, a2: u64, a3: u64)
    ensures Val4(ShiftRight1(a0, a1), ShiftRight1(a1, a2), ShiftRight1(a2, a3), a3 / 2) == Val4(a0, a1, a2, a3) / 2
  {
    var s0: int, s1: int, s2: int := ShiftRight1(a0, a1), ShiftRight1(a1, a2), ShiftRight1(a2, a3);
    assert 2 * s0 == a0 - a0 % 2 + (a1 % 2) * BASE;
    assert 2 * s1 == a1 - a1 % 2 + (a2 % 2) * BASE;
    assert 2 * s2 == a2 - a2 % 2 + (a3 % 2) * BASE;
    assert 2 * (s0 + s1 * BASE + s2 * B2 + (a3 / 2) * B3) + a0 % 2 == Val4(a0, a1, a2, a3);
  }

  /** In-place `scalar + temp` for a single bit, with the carry chain of the source: a limb that
      has become zero passes the carry on. */
  method AddBit(scalar: array<u64>, temp: bit)
    requires scalar.Length == 4 && ValAt(scalar, 0) + temp < B4
    modifies scalar
    ensures ValAt(scalar, 0) == old(ValAt(scalar, 0)) + temp
  {
    var s0 := Wrap(scalar[0] + temp);
    var c0 := if s0 != 0 then 0 else temp;
    var s1 := Wrap(scalar[1] + c0);
    var c1 := if s1 != 0 then 0 else c0;
    var s2 := Wrap(scalar[2] + c1);
    var c2 := if s2 != 0 then 0 else c1;
    var s3 := Wrap(scalar[3] + c2);
    scalar[0], scalar[1], scalar[2], scalar[3] := s0, s1, s2, s3;
  }

  const MINUS: int := 0xFFFF_FFFF

  /** The sign a digit of the sign row stands for. */
  function Sign(digit: int): (s: int) {
    if digit == 0 then 1 else -1
  }

  /** The signed digit at position `i`: the sign row itself for i < 50, later digits under the sign of their column. */
  ghost function CombDigit(digits: seq<int>, i: nat): int
    requires |digits| >= 50 && i < |digits|
  {
    if i < 50 then Sign(digits[i]) else Sign(digits[i % 50]) * digits[i]
  }

  ghost function CombDigits(digits: seq<int>, n: nat): (ds: seq<int>)
    requires |digits| >= 50 && n <= |digits|
    ensures |ds| == n && forall i: nat :: i < n ==> ds[i] == CombDigit(digits, i)
  {
    if n == 0 then [] else CombDigits(digits, n - 1) + [CombDigit(digits, n - 1)]
  }

  ghost predicate SignRow(digits: seq<int>) {
    |digits| >= 50 && digits[49] == 0 && forall i: nat :: i < 50 ==> digits[i] == 0 || digits[i] == MINUS
  }

  ghost predicate BitRows(digits: seq<int>, n: nat) {
    n <= |digits| && forall i: nat :: 50 <= i < n ==> digits[i] == 0 || digits[i] == 1
  }

  lemma {:induction false} CombPrefix(a: seq<int>, b: seq<int>, n: nat)
    requires |a| >= 50 && |b| >= 50 && n <= |a| && n <= |b| && (forall i: nat :: i < n ==> a[i] == b[i])
    requires n <= 50 || forall i: nat :: i < 50 ==> a[i] == b[i]
    ensures CombDigits(a, n) == CombDigits(b, n)
  {
    if n > 0 { CombPrefix(a, b, n - 1); }
  }

  /** One sign: of an odd value `2 * c + 1` the sign row takes +-1 and leaves the odd value `2 * (c / 2) + 1`. */
  lemma SignStep(ds: seq<int>, c: int, k: int, s: int)
    requires Horner(ds, 2 * c + 1) == k && s == (if c % 2 == 1 then 1 else -1)
    ensures Horner(ds + [s], 2 * (c / 2) + 1) == k
  {
    HornerAppend(ds, s, 2 * (c / 2) + 1);
    assert s + 2 * (2 * (c / 2) + 1) == 2 * c + 1;
  }

  /** One digit under a sign: a digit taken with a minus sign leaves one more. */
  lemma DigitStep(ds: seq<int>, c: int, k: int, s: int, d: int, c': int)
    requires Horner(ds, c) == k && (s == 1 || s == -1) && d == c % 2
    requires c' == c / 2 + (if s == -1 && d == 1 then 1 else 0)
    ensures Horner(ds + [s * d], c') == k
  {
    HornerAppend(ds, s * d, c');
    assert s * d == if s == 1 then d else -d;
  }

  /** Every scalar below 2^247 has at most 247 bits. */
  lemma ScalarFits(k: int)
    requires 0 <= k < 0x80_0000_0000_0000 * B3
    ensures AtMost(k, 247)
  {
    var x1 := Ceil(k, BASE);
    var x2 := Ceil(x1, BASE);
    var x3 := Ceil(x2, BASE);
    var y1 := Ceil(x3, 0x1_0000);
    var y2 := Ceil(y1, 0x1_0000);
    var y3 := Ceil(y2, 0x1_0000);
    var z := Ceil(y3, 16);
    assert z <= 8;
    assert AtMost((((z + 1) / 2 + 1) / 2 + 1) / 2, 0) && AtMost(((z + 1) / 2 + 1) / 2, 1) && AtMost((z + 1) / 2, 2);
    AtMost4(y3, z, 3);
    AtMost16(y2, y3, 7);
    AtMost16(y1, y2, 23);
    AtMost16(x3, y1, 39);
    AtMost64(x2, x3, 55);
    AtMost64(x1, x2, 119);
    AtMost64(k, x1, 183);
  }

  // ----- The comb loops -----

  /** The sign row, from the odd scalar `2 * c + 1` whose upper bits `c` are in `scalar`. */
  method SignDigits(scalar: array<u64>, digits: array<int>, ghost k: int)
    requires scalar.Length == 4 && digits.Length == 250 && k == 2 * ValAt(scalar, 0) + 1 && AtMost(k, 247)
    modifies scalar, digits
    ensures SignRow(digits[..]) && Horner(CombDigits(digits[..], 50), ValAt(scalar, 0)) == k
    ensures AtMost(ValAt(scalar, 0), 197)
  {
    for i := 0 to 49
      invariant forall j: nat :: j < i ==> digits[j] == 0 || digits[j] == MINUS
      invariant Horner(CombDigits(digits[..], i), 2 * ValAt(scalar, 0) + 1) == k
      invariant AtMost(2 * ValAt(scalar, 0) + 1, 247 - i)
    {
      SignDigit(scalar, digits, i, k, 247 - i);
    }
    ghost var ds := digits[..];
    digits[49] := 0;
    CombPrefix(ds, digits[..], 49);
    HornerAppend(CombDigits(ds, 49), 1, ValAt(scalar, 0));
    AtMostLess(2 * ValAt(scalar, 0) + 1, 2 * ValAt(scalar, 0), 198);
  }

  method SignDigit(scalar: array<u64>, digits: array<int>, i: nat, ghost k: int, ghost n: nat)
    requires scalar.Length == 4 && digits.Length == 250 && i < 49 && n > 0
    requires Horner(CombDigits(digits[..], i), 2 * ValAt(scalar, 0) + 1) == k && AtMost(2 * ValAt(scalar, 0) + 1, n)
    modifies scalar, digits
    ensures digits[i] == 0 || digits[i] == MINUS
    ensures forall j: nat :: j < 250 && j != i ==> digits[j] == old(digits[j])
    ensures Horner(CombDigits(digits[..], i + 1), 2 * ValAt(scalar, 0) + 1) == k
    ensures AtMost(2 * ValAt(scalar, 0) + 1, n - 1)
  {
    ghost var ds, c := digits[..], ValAt(scalar, 0);
    digits[i] := if scalar[0] % 2 == 1 then 0 else MINUS;
    Parity(scalar[0], scalar[1], scalar[2], scalar[3]);
    ShiftRightLimbs(scalar);
    SignDigitStep(ds, digits[..], i, c, k, n);
  }

  /** What one digit of the sign row does to the digits and the scalar `c`. */
  lemma SignDigitStep(ds: seq<int>, ds': seq<int>, i: nat, c: int, k: int, n: nat)
    requires |ds| == |ds'| == 250 && i < 49 && n > 0 && ds' == ds[i := if c % 2 == 1 then 0 else MINUS]
    requires Horner(CombDigits(ds, i), 2 * c + 1) == k && AtMost(2 * c + 1, n)
    ensures Horner(CombDigits(ds', i + 1), 2 * (c / 2) + 1) == k && AtMost(2 * (c / 2) + 1, n - 1)
  {
    CombPrefix(ds, ds', i);
    SignStep(CombDigits(ds, i), c, k, CombDigit(ds', i));
    assert CombDigits(ds', i + 1) == CombDigits(ds', i) + [CombDigit(ds', i)];
    AtMostLess(c + 1, 2 * (c / 2) + 1, n - 1);
  }

  /** The digits of the other four rows, each under the sign of its column. */
  method BitDigits(scalar: array<u64>, digits: array<int>, ghost k: int)
    requires scalar.Length == 4 && digits.Length == 250 && SignRow(digits[..])
    requires Horner(CombDigits(digits[..], 50), ValAt(scalar, 0)) == k && AtMost(ValAt(scalar, 0), 197)
    modifies scalar, digits
    ensures SignRow(digits[..]) && BitRows(digits[..], 250)
    ensures Horner(CombDigits(digits[..], 250), 0) == k && ValAt(scalar, 0) == 0
  {
    for i := 50 to 250
      invariant SignRow(digits[..]) && BitRows(digits[..], i)
      invariant Horner(CombDigits(digits[..], i), ValAt(scalar, 0)) == k
      invariant if i <= 247 then AtMost(ValAt(scalar, 0), 247 - i) else ValAt(scalar, 0) <= 1
      invariant i == 250 ==> ValAt(scalar, 0) == 0
    {
      ghost var c := ValAt(scalar, 0);
      BitDigit(scalar, digits, i, k);
      if i < 247 { AtMostLess((c + 1) / 2, ValAt(scalar, 0), 246 - i); }
    }
  }

  method BitDigit(scalar: array<u64>, digits: array<int>, i: nat, ghost k: int)
    requires scalar.Length == 4 && digits.Length == 250 && SignRow(digits[..]) && 50 <= i < 250
    requires BitRows(digits[..], i)
    requires Horner(CombDigits(digits[..], i), ValAt(scalar, 0)) == k
    modifies scalar, digits
    ensures SignRow(digits[..]) && BitRows(digits[..], i + 1)
    ensures Horner(CombDigits(digits[..], i + 1), ValAt(scalar, 0)) == k
    ensures var c := old(ValAt(scalar, 0));
            ValAt(scalar, 0) == c / 2 + (if digits[i % 50] == MINUS && c % 2 == 1 then 1 else 0)
  {
    ghost var ds, c := digits[..], ValAt(scalar, 0);
    digits[i] := scalar[0] % 2;
    assert c % 2 == scalar[0] % 2;
    ShiftRightLimbs(scalar);
    var temp := if digits[i - (i / 50) * 50] == MINUS then digits[i] else 0;
    assert i - (i / 50) * 50 == i % 50;
    AddBit(scalar, temp);
    CombPrefix(ds, digits[..], i);
    DigitStep(CombDigits(ds, i), c, k, Sign(digits[i % 50]), c % 2, ValAt(scalar, 0));
    assert CombDigits(digits[..], i + 1) == CombDigits(ds, i) + [Sign(digits[i % 50]) * digits[i]];
  }

  /** The recoding of `ecc_mul_fixed`: an odd scalar below 2^247 is the sum of its 250 comb digits. */
  method FixedBaseRecode(scalar: array<u64>, digits: array<int>)
    requires scalar.Length == 4 && digits.Length == 250
    requires ValAt(scalar, 0) % 2 == 1 && ValAt(scalar, 0) < 0x80_0000_0000_0000 * B3
    modifies scalar, digits
    ensures SignRow(digits[..]) && BitRows(digits[..], 250)
    ensures Horner(CombDigits(digits[..], 250), 0) == old(ValAt(scalar, 0)) && ValAt(scalar, 0) == 0
  {
    ghost var k := ValAt(scalar, 0);
    ScalarFits(k);
    ShiftRightLimbs(scalar);
    SignDigits(scalar, digits, k);
    BitDigits(scalar, digits, k);
  }

  /** The scalar `ecc_mul_fixed` recodes: `k mod r` if that is odd, else `k mod r + r`. */
  method OddScalar(k: array<u64>, scalar: array<u64>)
    requires k.Length == 4 && scalar.Length == 4
    modifies scalar
    ensures ValAt(scalar, 0) % 2 == 1 && ValAt(scalar, 0) < 2 * ORDER
    ensures ValAt(scalar, 0) % ORDER == old(ValAt(k, 0)) % ORDER
  {
    ReduceScalar(k, scalar);
    Parity(scalar[0], scalar[1], scalar[2], scalar[3]);
    OddOrder(ValAt(scalar, 0));
    if scalar[0] % 2 == 0 {
      AddOrderInPlace(scalar);
    }
  }

  method AddOrderInPlace(scalar: array<u64>)
    requires scalar.Length == 4 && ValAt(scalar, 0) < ORDER
    modifies scalar
    ensures ValAt(scalar, 0) == old(ValAt(scalar, 0)) + ORDER
  {
    MontgomeryConstants();
    var m0, m1, m2, m3, c := AddOrder(scalar[0], scalar[1], scalar[2], scalar[3]);
    scalar[0], scalar[1], scalar[2], scalar[3] := m0, m1, m2, m3;
  }

  lemma Parity(a0: u64, a1: u64, a2: u64, a3: u64)
    ensures Val4(a0, a1, a2, a3) % 2 == a0 % 2
  {
    assert Val4(a0, a1, a2, a3) == a0 + 2 * (a1 * HALF + a2 * (HALF * BASE) + a3 * (HALF * B2));
  }

  lemma OddOrder(v: int)
    requires 0 <= v < ORDER
    ensures (v + ORDER) % 2 != v % 2 && (v + ORDER) % ORDER == v % ORDER == v
  {
    assert ORDER % 2 == 1;
    ModUnique(v + ORDER, v, 1);
    ModUnique(v, v, 0);
  }

  // ----- Four sub-scalars with common signs -----

  /** The i-th signed digits of sub-scalar `j` (1, 2 or 3), read off the combined digits. */
  function SubBit(digit: int, j: nat): (b: int)
    requires 1 <= j <= 3
  {
    (if j == 1 then digit else if j == 2 then digit / 2 else digit / 4) % 2
  }

  function MaskSign(mask: int): (s: int) {
    if mask == 1 then 1 else -1
  }

  ghost function Signs(masks: seq<int>, n: nat): (ds: seq<int>)
    requires n <= |masks|
    ensures |ds| == n && forall i: nat :: i < n ==> ds[i] == MaskSign(masks[i])
  {
    if n == 0 then [] else Signs(masks, n - 1) + [MaskSign(masks[n - 1])]
  }

  ghost function SubDigits(masks: seq<int>, digits: seq<int>, j: nat, n: nat): (ds: seq<int>)
    requires n <= |masks| && n <= |digits| && 1 <= j <= 3
    ensures |ds| == n && forall i: nat :: i < n ==> ds[i] == MaskSign(masks[i]) * SubBit(digits[i], j)
  {
    if n == 0 then []
    else SubDigits(masks, digits, j, n - 1) + [MaskSign(masks[n - 1]) * SubBit(digits[n - 1], j)]
  }

  /** Half of a sub-scalar, plus one when its bit is taken with a minus sign. */
  function HalveSigned(x: u64, bit0: bit): (y: u64)
    ensures y == x / 2 + (if bit0 == 0 && x % 2 == 1 then 1 else 0)
  {
    x / 2 + (if bit0 == 0 then x % 2 else 0)
  }

  /** What the recoding keeps of sub-scalar `j` of initial value `k`. */
  ghost predicate SubState(masks: seq<int>, digits: seq<int>, j: nat, n: nat, x: int, k: int)
    requires n <= |masks| && n <= |digits| && 1 <= j <= 3 && n <= 64
  {
    Horner(SubDigits(masks, digits, j, n), x) == k && AtMost(x, 64 - n)
  }

  lemma SubStep(masks: seq<int>, digits: seq<int>, j: nat, n: nat, x: u64, k: int, bit0: bit)
    requires n < |masks| && n < |digits| && 1 <= j <= 3 && n < 64 && SubState(masks, digits, j, n, x, k)
    requires masks[n] == bit0 && SubBit(digits[n], j) == x % 2
    ensures SubState(masks, digits, j, n + 1, HalveSigned(x, bit0), k)
  {
    DigitStep(SubDigits(masks, digits, j, n), x, k, MaskSign(bit0), x % 2, HalveSigned(x, bit0));
    AtMostLess((x + 1) / 2, HalveSigned(x, bit0), 63 - n);
  }

  /** The first sub-scalar, which is odd: only its signs are kept. */
  ghost predicate FirstState(masks: seq<int>, n: nat, x: int, k: int)
    requires n <= |masks| && n <= 64
  {
    Horner(Signs(masks, n), 2 * (x / 2) + 1) == k && AtMost(2 * (x / 2) + 1, 64 - n)
  }

  lemma FirstStep(masks: seq<int>, n: nat, x: u64, k: int)
    requires n < |masks| && n < 64 && FirstState(masks, n, x, k) && masks[n] == (x / 2) % 2
    ensures FirstState(masks, n + 1, x / 2, k)
  {
    SignStep(Signs(masks, n), x / 2, k, MaskSign(masks[n]));
    AtMostLess(x / 2 + 1, 2 * (x / 2 / 2) + 1, 63 - n);
  }

  lemma {:induction false} SubPrefix(masks: seq<int>, digits: seq<int>, masks': seq<int>, digits': seq<int>, j: nat,
                                     n: nat)
    requires n <= |masks| && n <= |digits| && n <= |masks'| && n <= |digits'| && 1 <= j <= 3
    requires forall i: nat :: i < n ==> masks[i] == masks'[i] && digits[i] == digits'[i]
    ensures SubDigits(masks, digits, j, n) == SubDigits(masks', digits', j, n)
    ensures Signs(masks, n) == Signs(masks', n)
  {
    if n > 0 { SubPrefix(masks, digits, masks', digits', j, n - 1); }
  }

  /** Where the four sub-scalars stand after `n` digits. */
  ghost predicate FourState(masks: seq<int>, digits: seq<int>, n: nat, x: seq<u64>, k: seq<u64>)
    requires n <= |masks| && n <= |digits| && n <= 64 && |x| == |k| == 4
  {
    && FirstState(masks, n, x[0], k[0]) && SubState(masks, digits, 1, n, x[1], k[1])
    && SubState(masks, digits, 2, n, x[2], k[2]) && SubState(masks, digits, 3, n, x[3], k[3])
    && forall i: nat :: i < n ==> 0 <= masks[i] <= 1 && 0 <= digits[i] <= 7
  }

  /** The combined digit and the sub-scalars left by one pass of the loop. */
  function FourDigit(x: seq<u64>): (d: int)
    requires |x| == 4
    ensures 0 <= d <= 7 && SubBit(d, 1) == x[1] % 2 && SubBit(d, 2) == x[2] % 2 && SubBit(d, 3) == x[3] % 2
  {
    x[1] % 2 + (x[2] % 2) * 2 + (x[3] % 2) * 4
  }

  function FourNext(x: seq<u64>): (y: seq<u64>)
    requires |x| == 4
    ensures |y| == 4
  {
    var bit0 := (x[0] / 2) % 2;
    [x[0] / 2, HalveSigned(x[1], bit0), HalveSigned(x[2], bit0), HalveSigned(x[3], bit0)]
  }

  lemma FourStep(masks: seq<int>, digits: seq<int>, masks': seq<int>, digits': seq<int>, n: nat, x: seq<u64>,
                 k: seq<u64>)
    requires n < |masks| == |digits| == 64 && |x| == |k| == 4 && FourState(masks, digits, n, x, k)
    requires masks' == masks[n := (x[0] / 2) % 2] && digits' == digits[n := FourDigit(x)]
    ensures FourState(masks', digits', n + 1, FourNext(x), k)
  {
    var bit0 := (x[0] / 2) % 2;
    SubPrefix(masks, digits, masks', digits', 1, n);
    SubPrefix(masks, digits, masks', digits', 2, n);
    SubPrefix(masks, digits, masks', digits', 3, n);
    FirstStep(masks', n, x[0], k[0]);
    SubStep(masks', digits', 1, n, x[1], k[1], bit0);
    SubStep(masks', digits', 2, n, x[2], k[2], bit0);
    SubStep(masks', digits', 3, n, x[3], k[3], bit0);
  }

  lemma FourStart(masks: seq<int>, digits: seq<int>, k: seq<u64>)
    requires |masks| == |digits| == 64 && |k| == 4 && k[0] % 2 == 1
    ensures FourState(masks, digits, 0, k, k)
  {
    assert AtMost(1, 0);
    AtMost64(k[0], 1, 0);
    AtMost64(k[1], 1, 0);
    AtMost64(k[2], 1, 0);
    AtMost64(k[3], 1, 0);
  }

  /** The recoding of `ecc_mul`: four 64-bit sub-scalars, the first odd, into 64 signs and 64
      digits of three bits, plus one top digit of three bits. */
  method FourWayRecode(scalars: array<u64>, digits: array<int>, masks: array<int>)
    requires scalars.Length == 4 && digits.Length == 64 && masks.Length == 64 && digits != masks && scalars[0] % 2 == 1
    requires scalars as object != digits && scalars as object != masks
    modifies scalars, digits, masks
    ensures forall i: nat :: i < 64 ==> 0 <= masks[i] <= 1 && 0 <= digits[i] <= 7
    ensures Horner(Signs(masks[..], 64), 1) == old(scalars[0])
    ensures Horner(SubDigits(masks[..], digits[..], 1, 64), scalars[1]) == old(scalars[1])
    ensures Horner(SubDigits(masks[..], digits[..], 2, 64), scalars[2]) == old(scalars[2])
    ensures Horner(SubDigits(masks[..], digits[..], 3, 64), scalars[3]) == old(scalars[3])
    ensures scalars[1] <= 1 && scalars[2] <= 1 && scalars[3] <= 1
  {
    ghost var k := scalars[..];
    FourStart(masks[..], digits[..], k);
    for i := 0 to 64
      invariant FourState(masks[..], digits[..], i, scalars[..], k)
    {
      FourPass(scalars, digits, masks, i, k);
    }
    FourDone(masks[..], digits[..], 64, scalars[..], k);
  }

  /** After 64 digits nothing is left of the first sub-scalar and at most 1 of the others. */
  lemma FourDone(masks: seq<int>, digits: seq<int>, n: nat, x: seq<u64>, k: seq<u64>)
    requires |masks| == |digits| == n == 64 && |x| == |k| == 4 && FourState(masks, digits, n, x, k)
    ensures Horner(Signs(masks, n), 1) == k[0]
    ensures Horner(SubDigits(masks, digits, 1, n), x[1]) == k[1] && x[1] <= 1
    ensures Horner(SubDigits(masks, digits, 2, n), x[2]) == k[2] && x[2] <= 1
    ensures Horner(SubDigits(masks, digits, 3, n), x[3]) == k[3] && x[3] <= 1
  {
    assert AtMost(2 * (x[0] / 2) + 1, 64 - n) && AtMost(x[1], 64 - n) && AtMost(x[2], 64 - n) && AtMost(x[3], 64 - n);
  }

  method FourPass(scalars: array<u64>, digits: array<int>, masks: array<int>, i: nat, ghost k: seq<u64>)
    requires scalars.Length == 4 && digits.Length == 64 && masks.Length == 64 && digits != masks && i < 64 && |k| == 4
    requires scalars as object != digits && scalars as object != masks
    requires FourState(masks[..], digits[..], i, scalars[..], k)
    modifies scalars, digits, masks
    ensures FourState(masks[..], digits[..], i + 1, scalars[..], k)
  {
    ghost var x, ds, ms := scalars[..], digits[..], masks[..];
    scalars[0] := scalars[0] / 2;
    var bit0 := scalars[0] % 2;
    masks[i] := bit0;
    digits[i] := scalars[1] % 2;
    scalars[1] := HalveSigned(scalars[1], bit0);
    var b := scalars[2] % 2;
    scalars[2] := HalveSigned(scalars[2], bit0);
    digits[i] := digits[i] + b * 2;
    b := scalars[3] % 2;
    scalars[3] := HalveSigned(scalars[3], bit0);
    digits[i] := digits[i] + b * 4;
    assert scalars[..] == FourNext(x) && masks[..] == ms[i := bit0] && digits[..] == ds[i := FourDigit(x)];
    FourStep(ms, ds, masks[..], digits[..], i, x, k);
  }
}
