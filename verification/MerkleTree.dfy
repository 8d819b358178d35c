/** The in-place incremental Merkle tree over a power-of-two table, with one dirty flag
    per leaf. A 64-bit flag word is modelled as its 64 bits. */
module MerkleTree {
  import opened Powers

  /** Number of nodes on level `l` of a tree with `Pow2(depth)` leaves. */
  function Width(depth: nat, l: nat): (w: nat)
    requires l <= depth
    ensures w >= 1
  {
    Pow2(depth - l)
  }

  /** Where level `l` begins in the digest array. */
  function Offset(depth: nat, l: nat): (o: nat)
    requires l <= depth
    ensures o == 2 * Width(depth, 0) - 2 * Width(depth, l)
  {
    if l == 0 then 0 else Offset(depth, l - 1) + Width(depth, l - 1)
  }

  /** The leaf hash and the 64-to-32-byte node hash. */
  datatype Hash<!R, !D> = Hash(leaf: R -> D, pair: (D, D) -> D)

  /** The from-scratch digest of node `k` on level `l`. */
  ghost function Node<R, D>(h: Hash<R, D>, t: seq<R>, depth: nat, l: nat, k: nat): D
    requires l <= depth && |t| == Pow2(depth) && k < Width(depth, l)
    decreases l
  {
    if l == 0 then h.leaf(t[k])
    else h.pair(Node(h, t, depth, l - 1, 2 * k), Node(h, t, depth, l - 1, 2 * k + 1))
  }

  /** Some leaf below node `k` of level `l` is flagged. */
  ghost predicate Dirty(f: seq<bool>, depth: nat, l: nat, k: nat)
    requires l <= depth && |f| == Pow2(depth) && k < Width(depth, l)
    decreases l
  {
    if l == 0 then f[k]
    else Dirty(f, depth, l - 1, 2 * k) || Dirty(f, depth, l - 1, 2 * k + 1)
  }

  ghost predicate NodeOk<R(!new), D(!new)>(h: Hash<R, D>, t: seq<R>, d: seq<D>, depth: nat, l: nat, k: nat)
    requires |t| == Pow2(depth) && |d| == 2 * Pow2(depth) - 1
    requires l <= depth && k < Width(depth, l)
  {
    d[Offset(depth, l) + k] == Node(h, t, depth, l, k)
  }

  /** The first `n` nodes of level `l` are current. */
  ghost predicate LevelOk<R(!new), D(!new)>(h: Hash<R, D>, t: seq<R>, d: seq<D>, depth: nat, l: nat, n: nat)
    requires |t| == Pow2(depth) && |d| == 2 * Pow2(depth) - 1
    requires l <= depth && n <= Width(depth, l)
  {
    forall k: nat :: k < n ==> NodeOk(h, t, d, depth, l, k)
  }

  /** The invariant between updates: a node with no flagged leaf below it is current. */
  ghost predicate Fresh<R(!new), D(!new)>(h: Hash<R, D>, t: seq<R>, f: seq<bool>, d: seq<D>, depth: nat) {
    && |t| == |f| == Pow2(depth) && |d| == 2 * Pow2(depth) - 1
    && forall l: nat, k: nat {:trigger NodeOk(h, t, d, depth, l, k)} ::
         l <= depth && k < Width(depth, l) && !Dirty(f, depth, l, k) ==>
         NodeOk(h, t, d, depth, l, k)
  }

  /** Every node of the tree is current. */
  ghost predicate AllCurrent<R(!new), D(!new)>(h: Hash<R, D>, t: seq<R>, d: seq<D>, depth: nat) {
    && |t| == Pow2(depth) && |d| == 2 * Pow2(depth) - 1
    && forall l: nat, k: nat {:trigger NodeOk(h, t, d, depth, l, k)} ::
         l <= depth && k < Width(depth, l) ==> NodeOk(h, t, d, depth, l, k)
  }

  lemma {:induction false} Untouched<R, D>(h: Hash<R, D>, t: seq<R>, f: seq<bool>, t': seq<R>, f': seq<bool>,
                                           depth: nat, l: nat, k: nat)
    requires |t| == |f| == |t'| == |f'| == Pow2(depth) && l <= depth && k < Width(depth, l)
    requires forall i: nat :: i < |t| && !f'[i] ==> !f[i] && t'[i] == t[i]
    requires !Dirty(f', depth, l, k)
    ensures !Dirty(f, depth, l, k) && Node(h, t', depth, l, k) == Node(h, t, depth, l, k)
    decreases l
  {
    if l > 0 {
      Untouched(h, t, f, t', f', depth, l - 1, 2 * k);
      Untouched(h, t, f, t', f', depth, l - 1, 2 * k + 1);
    }
  }

  /** Any change of leaves keeps the invariant as long as each changed leaf is flagged. */
  lemma FlaggedChangesKeepFresh<R(!new), D(!new)>(h: Hash<R, D>, t: seq<R>, f: seq<bool>, t': seq<R>, f': seq<bool>,
                                                  d: seq<D>, depth: nat)
    requires Fresh(h, t, f, d, depth) && |t'| == |f'| == Pow2(depth)
    requires forall i: nat :: i < |t| && !f'[i] ==> !f[i] && t'[i] == t[i]
    ensures Fresh(h, t', f', d, depth)
  {
    forall l: nat, k: nat | l <= depth && k < Width(depth, l) && !Dirty(f', depth, l, k)
      ensures NodeOk(h, t', d, depth, l, k)
    {
      Untouched(h, t, f, t', f', depth, l, k);
      assert NodeOk(h, t, d, depth, l, k);
    }
  }

  lemma {:induction false} AllFlaggedDirty(f: seq<bool>, depth: nat, l: nat, k: nat)
    requires |f| == Pow2(depth) && l <= depth && k < Width(depth, l)
    requires forall i: nat :: i < |f| ==> f[i]
    ensures Dirty(f, depth, l, k)
    decreases l
  {
    if l > 0 { AllFlaggedDirty(f, depth, l - 1, 2 * k); }
  }

  /** With every flag set nothing is claimed of the digests. */
  lemma AllFlaggedFresh<R(!new), D(!new)>(h: Hash<R, D>, t: seq<R>, f: seq<bool>, d: seq<D>, depth: nat)
    requires |t| == |f| == Pow2(depth) && |d| == 2 * Pow2(depth) - 1
    requires forall i: nat :: i < |f| ==> f[i]
    ensures Fresh(h, t, f, d, depth)
  {
    forall l: nat, k: nat | l <= depth && k < Width(depth, l) ensures Dirty(f, depth, l, k) {
      AllFlaggedDirty(f, depth, l, k);
    }
  }

  // ----- The climb -----

  ghost predicate FlagsOk(f0: seq<bool>, f: seq<bool>, depth: nat, l: nat, from: nat, to: nat)
    requires |f| == |f0| == Pow2(depth) && l <= depth && to <= Width(depth, l) && to <= |f|
  {
    forall k: nat :: from <= k < to ==> f[k] == Dirty(f0, depth, l, k)
  }

  /** The flags on level `l` after `q` of its pairs, from flags `f0`: the parents' flags
      have grown over the cleared ones from the left. */
  ghost predicate FlagsClimb(f0: seq<bool>, f: seq<bool>, depth: nat, l: nat, q: nat) {
    && |f| == |f0| == Pow2(depth) && l <= depth && Width(depth, l) <= |f|
    && (if l < depth then q <= Width(depth, l + 1) && FlagsOk(f0, f, depth, l + 1, 0, q) else q == 0)
    && (forall k: nat :: q <= k < 2 * q ==> !f[k])
    && FlagsOk(f0, f, depth, l, 2 * q, Width(depth, l))
    && (forall k: nat :: Width(depth, l) <= k < |f| ==> !f[k])
  }

  /** The digests at the same point, from digests `d0`. */
  ghost predicate DigestsClimb<R(!new), D(!new)>(h: Hash<R, D>, t: seq<R>, d0: seq<D>, d: seq<D>,
                                                 depth: nat, l: nat, q: nat) {
    && |t| == Pow2(depth) && |d| == |d0| == 2 * Pow2(depth) - 1 && l <= depth
    && (forall l': nat :: l' <= l ==> LevelOk(h, t, d, depth, l', Width(depth, l')))
    && (if l < depth then q <= Width(depth, l + 1) && LevelOk(h, t, d, depth, l + 1, q) else q == 0)
    && (forall i: nat :: Offset(depth, l) + Width(depth, l) + q <= i < |d| ==> d[i] == d0[i])
  }

  /** A dirty pair: clear both flags, set the parent's flag. */
  lemma ClimbFlags(f0: seq<bool>, f: seq<bool>, depth: nat, l: nat, q: nat)
    requires FlagsClimb(f0, f, depth, l, q) && l < depth && q < Width(depth, l + 1)
    requires f[2 * q] || f[2 * q + 1]
    ensures FlagsClimb(f0, f[2 * q := false][2 * q + 1 := false][q := true], depth, l, q + 1)
  {
    var f' := f[2 * q := false][2 * q + 1 := false][q := true];
    assert Dirty(f0, depth, l + 1, q);
    assert FlagsOk(f0, f', depth, l + 1, 0, q + 1);
    assert FlagsOk(f0, f', depth, l, 2 * (q + 1), Width(depth, l));
  }

  /** ... and hash the pair into the parent's digest. */
  lemma ClimbDigests<R(!new), D(!new)>(h: Hash<R, D>, t: seq<R>, d0: seq<D>, d: seq<D>, depth: nat, l: nat, q: nat)
    requires DigestsClimb(h, t, d0, d, depth, l, q) && l < depth && q < Width(depth, l + 1)
    ensures var o := Offset(depth, l);
            DigestsClimb(h, t, d0, d[o + Width(depth, l) + q := h.pair(d[o + 2 * q], d[o + 2 * q + 1])], depth, l,
                         q + 1)
  {
    var m, o := l + 1, Offset(depth, l);
    var d' := d[o + Width(depth, l) + q := h.pair(d[o + 2 * q], d[o + 2 * q + 1])];
    assert Offset(depth, m) == o + Width(depth, l);
    assert LevelOk(h, t, d, depth, l, Width(depth, l));
    assert NodeOk(h, t, d, depth, l, 2 * q) && NodeOk(h, t, d, depth, l, 2 * q + 1);
    forall l': nat | l' <= l ensures LevelOk(h, t, d', depth, l', Width(depth, l')) {
      LevelFrame(h, t, d, d', depth, l', m, Width(depth, l'));
    }
    LevelFrame(h, t, d, d', depth, m, m, q);
    assert NodeOk(h, t, d', depth, m, q);
  }

  /** Current nodes stay current when only digests from the given node on are rewritten. */
  lemma LevelFrame<R(!new), D(!new)>(h: Hash<R, D>, t: seq<R>, d: seq<D>, d': seq<D>, depth: nat, l': nat, l: nat,
                                     n: nat)
    requires |t| == Pow2(depth) && |d| == |d'| == 2 * Pow2(depth) - 1
    requires l' <= l <= depth && n <= Width(depth, l') && LevelOk(h, t, d, depth, l', n)
    requires forall i: nat :: i < |d| && i < Offset(depth, l) + (if l' == l then n else 0) ==> d'[i] == d[i]
    ensures LevelOk(h, t, d', depth, l', n)
  {
    if l' < l { LevelsApart(depth, l', l - 1); }
    forall k: nat | k < n ensures NodeOk(h, t, d', depth, l', k) { assert NodeOk(h, t, d, depth, l', k); }
  }

  /** Level `l'` lies below the beginning of the level after `l`. */
  lemma {:induction false} LevelsApart(depth: nat, l': nat, l: nat)
    requires l' <= l <= depth
    ensures Offset(depth, l') + Width(depth, l') <= Offset(depth, l) + Width(depth, l)
    decreases l
  {
    if l' < l { LevelsApart(depth, l', l - 1); }
  }

  /** A pair without a flag: the parent's digest is still current and its flag is clear. */
  lemma ClimbSkip<R(!new), D(!new)>(h: Hash<R, D>, t: seq<R>, f0: seq<bool>, d0: seq<D>,
                                    f: seq<bool>, d: seq<D>, depth: nat, l: nat, q: nat)
    requires Fresh(h, t, f0, d0, depth)
    requires FlagsClimb(f0, f, depth, l, q) && DigestsClimb(h, t, d0, d, depth, l, q)
    requires l < depth && q < Width(depth, l + 1) && !f[2 * q] && !f[2 * q + 1]
    ensures FlagsClimb(f0, f, depth, l, q + 1) && DigestsClimb(h, t, d0, d, depth, l, q + 1)
  {
    var m := l + 1;
    assert Offset(depth, m) == Offset(depth, l) + Width(depth, l);
    assert !Dirty(f0, depth, l, 2 * q) && !Dirty(f0, depth, l, 2 * q + 1);
    assert NodeOk(h, t, d0, depth, m, q) && NodeOk(h, t, d, depth, m, q);
    assert LevelOk(h, t, d, depth, m, q + 1) && FlagsOk(f0, f, depth, m, 0, q + 1);
  }

  /** The finished level is the start of the next one. */
  lemma ClimbLevel<R(!new), D(!new)>(h: Hash<R, D>, t: seq<R>, f0: seq<bool>, d0: seq<D>,
                                     f: seq<bool>, d: seq<D>, depth: nat, l: nat)
    requires l < depth
    requires FlagsClimb(f0, f, depth, l, Width(depth, l + 1))
    requires DigestsClimb(h, t, d0, d, depth, l, Width(depth, l + 1))
    ensures FlagsClimb(f0, f, depth, l + 1, 0) && DigestsClimb(h, t, d0, d, depth, l + 1, 0)
  {
    var m := l + 1;
    assert Offset(depth, m) == Offset(depth, l) + Width(depth, l);
    if m < depth { assert LevelOk(h, t, d, depth, m + 1, 0) && FlagsOk(f0, f, depth, m + 1, 0, 0); }
  }

  // ----- The update -----

  predicate IsZero(word: seq<bool>) {
    true !in word
  }

  /** Index of the lowest set bit. */
  function LowestBit(word: seq<bool>): (b: nat)
    requires !IsZero(word)
    ensures b < |word| && word[b] && forall j: nat :: j < b ==> !word[j]
  {
    if word[0] then 0 else 1 + LowestBit(word[1..])
  }

  /** A level of at least 64 nodes fills whole flag words. */
  lemma WholeWords(n: nat)
    ensures Pow2(n) >= 64 <==> n >= 6
    ensures n >= 6 ==> Pow2(n) == 64 * Pow2(n - 6)
  {
    assert Pow2(5) == 32;
    if n < 5 { Pow2Monotone(n, 5); }
    if n >= 6 {
      assert Pow2(n) == 2 * Pow2(n - 1) == 4 * Pow2(n - 2) == 8 * Pow2(n - 3);
      assert Pow2(n - 3) == 2 * Pow2(n - 4) == 4 * Pow2(n - 5) == 8 * Pow2(n - 6);
    }
  }

  /** Rehashes the flagged leaves of one flag word, lowest bit first. */
  method HashWord<R, D>(leaf: R -> D, leaves: array<R>, digests: array<D>, base: nat, word: seq<bool>)
    requires |word| == 64 && base + 64 <= leaves.Length <= digests.Length && leaves as object != digests
    modifies digests
    ensures forall i: nat :: i < digests.Length ==>
              digests[i] == if base <= i < base + 64 && word[i - base] then leaf(leaves[i]) else old(digests[i])
  {
    var mask := word;
    ghost var done := 0;
    while !IsZero(mask)
      invariant 0 <= done <= 64 && |mask| == 64
      invariant forall j: nat :: j < 64 ==> mask[j] == (j >= done && word[j])
      invariant forall i: nat :: i < digests.Length ==>
                  digests[i] == if base <= i < base + done && word[i - base] then leaf(leaves[i]) else old(digests[i])
      decreases 64 - done
    {
      var bit := LowestBit(mask);
      var idx := base + bit;
      digests[idx] := leaf(leaves[idx]);
      mask := mask[bit := false];
      done := bit + 1;
    }
  }

  /** Rehashes the flagged leaves, skipping words without a flag. */
  method HashLeaves<R, D>(leaf: R -> D, leaves: array<R>, flags: array<bool>, digests: array<D>)
    requires leaves.Length == flags.Length <= digests.Length && leaves.Length % 64 == 0
    requires leaves as object != digests && flags as object != digests
    modifies digests
    ensures forall i: nat :: i < digests.Length ==>
              digests[i] == if i < flags.Length && flags[i] then leaf(leaves[i]) else old(digests[i])
  {
    for chunk := 0 to leaves.Length / 64
      invariant forall i: nat :: i < digests.Length ==>
                  digests[i] == if i < 64 * chunk && flags[i] then leaf(leaves[i]) else old(digests[i])
    {
      var mask := flags[64 * chunk..64 * chunk + 64];
      if IsZero(mask) {
        forall i: nat | 64 * chunk <= i < 64 * chunk + 64 ensures !flags[i] { assert !mask[i - 64 * chunk]; }
        continue;
      }
      HashWord(leaf, leaves, digests, 64 * chunk, mask);
    }
  }

  /** One pair of the climb, at position `i` of the level that begins at `previous`. */
  method ClimbPair<D>(pair: (D, D) -> D, flags: array<bool>, digests: array<D>, previous: nat, digestIndex: nat, i: nat)
    requires flags as object != digests
    requires i + 1 < flags.Length && previous + i + 1 < digests.Length && digestIndex < digests.Length
    modifies flags, digests
    ensures (flags[..], digests[..]) == PairStep(pair, old(flags[..]), old(digests[..]), previous, digestIndex, i)
  {
    ghost var f, d := flags[..], digests[..];
    if flags[i] || flags[i + 1] {
      digests[digestIndex] := pair(digests[previous + i], digests[previous + i + 1]);
      flags[i] := false;
      flags[i + 1] := false;
      flags[i / 2] := true;
      assert flags[..] == f[i := false][i + 1 := false][i / 2 := true];
      assert digests[..] == d[digestIndex := pair(d[previous + i], d[previous + i + 1])];
    }
  }

  /** What one pair does to the flags and the digests. */
  ghost function PairStep<D>(pair: (D, D) -> D, f: seq<bool>, d: seq<D>, previous: nat, digestIndex: nat, i: nat)
    : (seq<bool>, seq<D>)
    requires i + 1 < |f| && previous + i + 1 < |d| && digestIndex < |d|
  {
    if f[i] || f[i + 1] then
      (f[i := false][i + 1 := false][i / 2 := true],
       d[digestIndex := pair(d[previous + i], d[previous + i + 1])])
    else (f, d)
  }

  /** The first `n` pairs from position `i` on, one after another: the plain form of a level. */
  ghost function PairSteps<D>(pair: (D, D) -> D, f: seq<bool>, d: seq<D>, previous: nat, digestIndex: nat, i: nat,
                              n: nat)
    : (r: (seq<bool>, seq<D>))
    requires i + 2 * n <= |f| && previous + i + 2 * n <= |d| && digestIndex + n <= |d|
    ensures |r.0| == |f| && |r.1| == |d|
  {
    if n == 0 then (f, d)
    else
      var r := PairSteps(pair, f, d, previous, digestIndex, i, n - 1);
      PairStep(pair, r.0, r.1, previous, digestIndex + n - 1, i + 2 * (n - 1))
  }

  lemma {:induction false} PairStepsCompose<D>(pair: (D, D) -> D, f: seq<bool>, d: seq<D>, previous: nat,
                                               digestIndex: nat,
                                               i: nat, m: nat, n: nat)
    requires i + 2 * (m + n) <= |f| && previous + i + 2 * (m + n) <= |d| && digestIndex + m + n <= |d|
    ensures var r := PairSteps(pair, f, d, previous, digestIndex, i, m);
            PairSteps(pair, r.0, r.1, previous, digestIndex + m, i + 2 * m, n)
            == PairSteps(pair, f, d, previous, digestIndex, i, m + n)
  {
    if n > 0 { PairStepsCompose(pair, f, d, previous, digestIndex, i, m, n - 1); }
  }

  /** Pairs without a flag leave everything as it is, so a zero word may be skipped. */
  lemma {:induction false} PairStepsIdle<D>(pair: (D, D) -> D, f: seq<bool>, d: seq<D>, previous: nat, digestIndex: nat,
                                            i: nat, n: nat)
    requires i + 2 * n <= |f| && previous + i + 2 * n <= |d| && digestIndex + n <= |d|
    requires forall j: nat :: i <= j < i + 2 * n ==> !f[j]
    ensures PairSteps(pair, f, d, previous, digestIndex, i, n) == (f, d)
  {
    if n > 0 { PairStepsIdle(pair, f, d, previous, digestIndex, i, n - 1); }
  }

  /** `n` consecutive pairs of a level from position `i` on. */
  method ClimbPairs<D>(pair: (D, D) -> D, flags: array<bool>, digests: array<D>, previous: nat, digestIndex: nat,
                       i: nat, n: nat)
    returns (digestIndex': nat)
    requires flags as object != digests
    requires i + 2 * n <= flags.Length && previous + i + 2 * n <= digests.Length && digestIndex + n <= digests.Length
    modifies flags, digests
    ensures digestIndex' == digestIndex + n
    ensures (flags[..], digests[..]) == PairSteps(pair, old(flags[..]), old(digests[..]), previous, digestIndex, i, n)
  {
    digestIndex' := digestIndex;
    for j := 0 to n
      invariant digestIndex' == digestIndex + j
      invariant (flags[..], digests[..])
                  == PairSteps(pair, old(flags[..]), old(digests[..]), previous, digestIndex, i, j)
    {
      ClimbPair(pair, flags, digests, previous, digestIndex', i + 2 * j);
      digestIndex' := digestIndex' + 1;
    }
  }

  /** The 32 pairs of one flag word, skipped when the word is zero. */
  method ClimbWord<D>(pair: (D, D) -> D, flags: array<bool>, digests: array<D>, previous: nat, digestIndex: nat,
                      base: nat)
    returns (digestIndex': nat)
    requires flags as object != digests
    requires base + 64 <= flags.Length && previous + base + 64 <= digests.Length && digestIndex + 32 <= digests.Length
    modifies flags, digests
    ensures digestIndex' == digestIndex + 32
    ensures (flags[..], digests[..])
              == PairSteps(pair, old(flags[..]), old(digests[..]), previous, digestIndex, base, 32)
  {
    var word := flags[base..base + 64];
    if IsZero(word) {
      forall j: nat | base <= j < base + 64 ensures !flags[..][j] { assert !word[j - base]; }
      PairStepsIdle(pair, flags[..], digests[..], previous, digestIndex, base, 32);
      digestIndex' := digestIndex + 32;
    } else {
      digestIndex' := ClimbPairs(pair, flags, digests, previous, digestIndex, base, 32);
    }
  }

  /** One level of the climb. With at least 64 nodes it goes by flag word and skips zero
      words; either way the effect is that of the plain form. */
  method ClimbOneLevel<D>(pair: (D, D) -> D, flags: array<bool>, digests: array<D>, previous: nat, leafs: nat)
    returns (digestIndex: nat)
    requires flags as object != digests && leafs <= flags.Length && previous + leafs + leafs / 2 <= digests.Length
    requires leafs % 2 == 0 && (leafs >= 64 ==> leafs % 64 == 0)
    modifies flags, digests
    ensures digestIndex == previous + leafs + leafs / 2
    ensures (flags[..], digests[..])
         == PairSteps(pair, old(flags[..]), old(digests[..]), previous, previous + leafs, 0, leafs / 2)
  {
    digestIndex := previous + leafs;
    if leafs >= 64 {
      for chunk := 0 to leafs / 64
        invariant digestIndex == previous + leafs + 32 * chunk
        invariant (flags[..], digests[..])
               == PairSteps(pair, old(flags[..]), old(digests[..]), previous, previous + leafs, 0, 32 * chunk)
      {
        PairStepsCompose(pair, old(flags[..]), old(digests[..]), previous, previous + leafs, 0, 32 * chunk, 32);
        digestIndex := ClimbWord(pair, flags, digests, previous, digestIndex, 64 * chunk);
      }
    } else {
      digestIndex := ClimbPairs(pair, flags, digests, previous, digestIndex, 0, leafs / 2);
    }
  }

  /** The climb so far, on level `l` after `q` pairs. */
  ghost predicate Climbing<R(!new), D(!new)>(h: Hash<R, D>, t: seq<R>, f0: seq<bool>, d0: seq<D>,
                                             f: seq<bool>, d: seq<D>, depth: nat, l: nat, q: nat) {
    && Fresh(h, t, f0, d0, depth)
    && FlagsClimb(f0, f, depth, l, q) && DigestsClimb(h, t, d0, d, depth, l, q)
  }

  lemma ClimbStep<R(!new), D(!new)>(h: Hash<R, D>, t: seq<R>, f0: seq<bool>, d0: seq<D>, f: seq<bool>, d: seq<D>,
                                    f': seq<bool>, d': seq<D>, depth: nat, l: nat, q: nat)
    requires Climbing(h, t, f0, d0, f, d, depth, l, q) && l < depth && q < Width(depth, l + 1)
    requires var o := Offset(depth, l); (f', d') == PairStep(h.pair, f, d, o, o + Width(depth, l) + q, 2 * q)
    ensures Climbing(h, t, f0, d0, f', d', depth, l, q + 1)
  {
    if f[2 * q] || f[2 * q + 1] {
      ClimbFlags(f0, f, depth, l, q);
      ClimbDigests(h, t, d0, d, depth, l, q);
    } else {
      ClimbSkip(h, t, f0, d0, f, d, depth, l, q);
    }
  }

  /** In-range positions of a level. */
  lemma LevelInRange(depth: nat, l: nat)
    requires l < depth
    ensures 2 * Width(depth, l + 1) == Width(depth, l) <= Pow2(depth)
    ensures Offset(depth, l + 1) == Offset(depth, l) + Width(depth, l)
    ensures Offset(depth, l + 1) + Width(depth, l + 1) <= 2 * Pow2(depth) - 1
  {
    assert Offset(depth, l) >= 0;
  }

  /** The plain form of a level carries the climb through that level. */
  lemma {:induction false} ClimbSteps<R(!new), D(!new)>(h: Hash<R, D>, t: seq<R>, f0: seq<bool>, d0: seq<D>,
                                                        f: seq<bool>, d: seq<D>, depth: nat, l: nat, o: nat, w: nat,
                                                        n: nat,
                                                        r: (seq<bool>, seq<D>))
    requires Climbing(h, t, f0, d0, f, d, depth, l, 0) && l < depth && n <= Width(depth, l + 1)
    requires o == Offset(depth, l) && w == Width(depth, l) && 2 * n <= |f| && o + 2 * n <= |d| && o + w + n <= |d|
    requires r == PairSteps(h.pair, f, d, o, o + w, 0, n)
    ensures Climbing(h, t, f0, d0, r.0, r.1, depth, l, n)
  {
    if n > 0 {
      var s := PairSteps(h.pair, f, d, o, o + w, 0, n - 1);
      ClimbSteps(h, t, f0, d0, f, d, depth, l, o, w, n - 1, s);
      assert (r.0, r.1) == PairStep(h.pair, s.0, s.1, o, o + w + (n - 1), 2 * (n - 1));
      ClimbStep(h, t, f0, d0, s.0, s.1, r.0, r.1, depth, l, n - 1);
    }
  }

  lemma ClimbWholeLevel<R(!new), D(!new)>(h: Hash<R, D>, t: seq<R>, f0: seq<bool>, d0: seq<D>,
                                          s: (seq<bool>, seq<D>), depth: nat, l: nat)
    requires Climbing(h, t, f0, d0, s.0, s.1, depth, l, 0) && l < depth
    ensures var r := LevelStep(h.pair, s, depth, l); Climbing(h, t, f0, d0, r.0, r.1, depth, l + 1, 0)
  {
    LevelInRange(depth, l);
    var r, w := LevelStep(h.pair, s, depth, l), Width(depth, l + 1);
    ClimbSteps(h, t, f0, d0, s.0, s.1, depth, l, Offset(depth, l), 2 * w, w, r);
    ClimbLevel(h, t, f0, d0, r.0, r.1, depth, l);
  }

  /** The levels below `l`, each in its plain form. */
  ghost function LevelSteps<D>(pair: (D, D) -> D, f: seq<bool>, d: seq<D>, depth: nat, l: nat): (r: (seq<bool>, seq<D>))
    requires |f| == Pow2(depth) && |d| == 2 * Pow2(depth) - 1 && l <= depth
    ensures |r.0| == |f| && |r.1| == |d|
  {
    if l == 0 then (f, d)
    else
      var r := LevelSteps(pair, f, d, depth, l - 1);
      LevelStep(pair, r, depth, l - 1)
  }

  ghost function LevelStep<D>(pair: (D, D) -> D, s: (seq<bool>, seq<D>), depth: nat, l: nat): (r: (seq<bool>, seq<D>))
    requires |s.0| == Pow2(depth) && |s.1| == 2 * Pow2(depth) - 1 && l < depth
    ensures |r.0| == |s.0| && |r.1| == |s.1|
  {
    LevelInRange(depth, l);
    PairSteps(pair, s.0, s.1, Offset(depth, l), Offset(depth, l + 1), 0, Width(depth, l + 1))
  }

  lemma {:induction false} ClimbLevels<R(!new), D(!new)>(h: Hash<R, D>, t: seq<R>, f0: seq<bool>, d0: seq<D>,
                                                         f: seq<bool>, d: seq<D>, depth: nat, l: nat,
                                                         r: (seq<bool>, seq<D>))
    requires Climbing(h, t, f0, d0, f, d, depth, 0, 0) && l <= depth
    requires r == LevelSteps(h.pair, f, d, depth, l)
    ensures Climbing(h, t, f0, d0, r.0, r.1, depth, l, 0)
  {
    if l > 0 {
      var s := LevelSteps(h.pair, f, d, depth, l - 1);
      ClimbLevels(h, t, f0, d0, f, d, depth, l - 1, s);
      ClimbWholeLevel(h, t, f0, d0, s, depth, l - 1);
    }
  }

  /** Level `l`, which begins at `previous` and has `leafs` nodes. */
  method ClimbLevelOf<D>(pair: (D, D) -> D, flags: array<bool>, digests: array<D>, previous: nat, leafs: nat,
                         ghost depth: nat, ghost l: nat)
    returns (digestIndex: nat)
    requires flags as object != digests && l < depth
    requires flags.Length == Pow2(depth) && digests.Length == 2 * Pow2(depth) - 1
    requires leafs == Width(depth, l) && previous == Offset(depth, l)
    modifies flags, digests
    ensures digestIndex == Offset(depth, l + 1) + Width(depth, l + 1)
    ensures (flags[..], digests[..]) == LevelStep(pair, (old(flags[..]), old(digests[..])), depth, l)
  {
    LevelInRange(depth, l);
    WholeWords(depth - l);
    digestIndex := ClimbOneLevel(pair, flags, digests, previous, leafs);
  }

  /** The whole climb, level by level. */
  method ClimbTree<D>(pair: (D, D) -> D, flags: array<bool>, digests: array<D>, depth: nat)
    requires flags as object != digests
    requires flags.Length == Pow2(depth) && digests.Length == 2 * Pow2(depth) - 1
    modifies flags, digests
    ensures (flags[..], digests[..]) == LevelSteps(pair, old(flags[..]), old(digests[..]), depth, depth)
  {
    var digestIndex, previous, leafs := flags.Length, 0, flags.Length;
    ghost var l := 0;
    while leafs > 1
      invariant l <= depth && leafs == Width(depth, l) && previous == Offset(depth, l)
      invariant digestIndex == previous + leafs
      invariant (flags[..], digests[..]) == LevelSteps(pair, old(flags[..]), old(digests[..]), depth, l)
      decreases depth - l
    {
      digestIndex := ClimbLevelOf(pair, flags, digests, previous, leafs, depth, l);
      previous := previous + leafs;
      leafs := leafs / 2;
      l := l + 1;
    }
  }

  /** The root of a finished climb, and what is left to clear. */
  lemma ClimbDone<R(!new), D(!new)>(h: Hash<R, D>, t: seq<R>, f0: seq<bool>, d0: seq<D>, f: seq<bool>, d: seq<D>,
                                    depth: nat)
    requires Climbing(h, t, f0, d0, f, d, depth, depth, 0)
    ensures AllCurrent(h, t, d, depth)
    ensures d[2 * Pow2(depth) - 2] == Node(h, t, depth, depth, 0)
    ensures forall i: nat :: 1 <= i < |f| ==> !f[i]
  {
    forall l: nat, k: nat | l <= depth && k < Width(depth, l) ensures NodeOk(h, t, d, depth, l, k) {
      assert LevelOk(h, t, d, depth, l, Width(depth, l));
    }
    assert NodeOk(h, t, d, depth, depth, 0);
  }

  /** `getUniverseDigest`: makes every node current, clears every flag, returns the root. */
  method UpdateTree<R(!new), D(!new)>(h: Hash<R, D>, leaves: array<R>, flags: array<bool>, digests: array<D>,
                                      depth: nat)
    returns (root: D)
    requires depth >= 6 && leaves as object != digests && leaves as object != flags && flags as object != digests
    requires Fresh(h, leaves[..], flags[..], digests[..], depth)
    modifies flags, digests
    ensures AllCurrent(h, leaves[..], digests[..], depth)
    ensures forall i: nat :: i < flags.Length ==> !flags[i]
    ensures root == Node(h, leaves[..], depth, depth, 0)
  {
    ghost var t, f0, d0 := leaves[..], flags[..], digests[..];
    WholeWords(depth);
    HashLeaves(h.leaf, leaves, flags, digests);
    ghost var d := digests[..];
    LeavesStartClimb(h, t, f0, d0, d, depth);
    ClimbTree(h.pair, flags, digests, depth);
    ClimbLevels(h, t, f0, d0, f0, d, depth, depth, (flags[..], digests[..]));
    ClimbDone(h, t, f0, d0, flags[..], digests[..], depth);
    ClearWord(flags);
    root := digests[2 * leaves.Length - 2];
  }

  /** `assetChangeFlags[0] = 0`. */
  method ClearWord(flags: array<bool>)
    requires flags.Length >= 64
    modifies flags
    ensures forall i: nat :: i < flags.Length ==> flags[i] == (i >= 64 && old(flags[i]))
  {
    for j := 0 to 64
      invariant forall i: nat :: i < flags.Length ==> flags[i] == (i >= j && old(flags[i]))
    {
      flags[j] := false;
    }
  }

  lemma LeavesStartClimb<R(!new), D(!new)>(h: Hash<R, D>, t: seq<R>, f0: seq<bool>, d0: seq<D>, d: seq<D>, depth: nat)
    requires depth > 0 && Fresh(h, t, f0, d0, depth) && |d| == |d0|
    requires forall i: nat :: i < |d| ==> d[i] == if i < |t| && f0[i] then h.leaf(t[i]) else d0[i]
    ensures FlagsClimb(f0, f0, depth, 0, 0) && DigestsClimb(h, t, d0, d, depth, 0, 0)
  {
    forall k: nat | k < Width(depth, 0) ensures NodeOk(h, t, d, depth, 0, k) {
      if !f0[k] { assert NodeOk(h, t, d0, depth, 0, k); }
    }
    assert LevelOk(h, t, d, depth, 0, Width(depth, 0)) && LevelOk(h, t, d, depth, 1, 0);
    assert FlagsOk(f0, f0, depth, 1, 0, 0) && FlagsOk(f0, f0, depth, 0, 0, Width(depth, 0));
  }
}
