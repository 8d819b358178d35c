/** The score cache: an open-addressed table of bounded probe length that forgets on collisions,
    and the scoring function that uses it. */
module ScoreCache {
  import opened Remainders

  /** What a score depends on; keys are 256-bit numbers. */
  datatype Key = Key(publicKey: nat, miningSeed: nat, nonce: nat)

  datatype Entry = Entry(key: Key, score: int)

  const EMPTY: Entry := Entry(Key(0, 0, 0), 0)
  const MISS: int := -1
  const COLLISION: int := -2

  /** A slot counts as empty when its public key is zero. */
  predicate Vacant(e: Entry) {
    e.key.publicKey == 0
  }

  // ----- One fetch, one store -----

  /** What a fetch finds from slot `i` with `left` tries: the value and the slot where it ended. */
  function Fetched(cache: seq<Entry>, key: Key, i: nat, left: nat): (r: (int, nat))
    requires i < |cache|
    ensures r.1 < |cache|
    decreases left
  {
    if left == 0 then (COLLISION, i)
    else if Vacant(cache[i]) then (MISS, i)
    else if cache[i].key == key then (cache[i].score, i)
    else Fetched(cache, key, (i + 1) % |cache|, left - 1)
  }

  /** One step on, every other slot is one step nearer. */
  lemma OneNearer(i: nat, s: nat, n: nat)
    requires i < n && s < n && s != i
    ensures (i + 1) % n < n && (s - (i + 1) % n) % n == (s - i) % n - 1
  {
    ModWrap(i + 1, n);
    ModWrap(s - i, n);
    ModWrap(s - (i + 1) % n, n);
  }

  /** An entry is found from slot `i`, going round the table, if it lies less than `left` steps on and all slots
      before it are occupied by other keys. */
  lemma {:induction false} FetchFinds(cache: seq<Entry>, key: Key, i: nat, left: nat, j: nat)
    requires i < |cache| && j < |cache| && key.publicKey != 0 && cache[j].key == key && (j - i) % |cache| < left
    requires forall s: nat :: s < |cache| && (s - i) % |cache| < (j - i) % |cache| ==>
               cache[s].key.publicKey != 0 && cache[s].key != key
    ensures Fetched(cache, key, i, left) == (cache[j].score, j)
    decreases left
  {
    if j != i {
      var n := |cache|;
      ModWrap(i - i, n);
      ModWrap(j - i, n);
      assert (i - i) % n < (j - i) % n;
      OneNearer(i, j, n);
      forall s: nat | s < n && (s - (i + 1) % n) % n < (j - (i + 1) % n) % n
        ensures cache[s].key.publicKey != 0 && cache[s].key != key
      {
        if s != i { OneNearer(i, s, n); }
      }
      FetchFinds(cache, key, (i + 1) % n, left - 1, j);
    }
  }

  /** Every occupied slot holds the score of its key. */
  ghost predicate Truthful(cache: seq<Entry>, f: Key -> int) {
    forall i: nat :: i < |cache| ==> Vacant(cache[i]) || cache[i].score == f(cache[i].key)
  }

  /** A fetch that returns a score returns the score of the key. */
  lemma {:induction false} FetchTruthful(cache: seq<Entry>, f: Key -> int, key: Key, i: nat, left: nat)
    requires Truthful(cache, f) && i < |cache|
    ensures var v := Fetched(cache, key, i, left).0; v == f(key) || v == MISS || v == COLLISION
    decreases left
  {
    if left > 0 && !Vacant(cache[i]) && cache[i].key != key {
      FetchTruthful(cache, f, key, (i + 1) % |cache|, left - 1);
    }
  }

  lemma StoreTruthful(cache: seq<Entry>, f: Key -> int, key: Key, i: nat)
    requires Truthful(cache, f) && i < |cache|
    ensures Truthful(cache[i := Entry(key, f(key))], f)
  {
  }

  /** Storing where a fetch ended in an empty slot makes the next fetch find it there. */
  lemma {:induction false} StoreAtMiss(cache: seq<Entry>, key: Key, score: int, i: nat, left: nat)
    requires i < |cache| && left <= |cache| && key.publicKey != 0 && left > 0 && MissAt(cache, key, i, left)
    ensures var j := Fetched(cache, key, i, left).1;
            Fetched(cache[j := Entry(key, score)], key, i, left) == (score, j)
    decreases left
  {
    if !Vacant(cache[i]) {
      var n, j := (i + 1) % |cache|, Fetched(cache, key, i, left).1;
      StoreAtMiss(cache, key, score, n, left - 1);
      MissVacant(cache, key, n, left - 1);
    }
  }

  /** The fetch ends in an empty slot. */
  ghost predicate MissAt(cache: seq<Entry>, key: Key, i: nat, left: nat)
    requires i < |cache|
    decreases left
  {
    left > 0 && (Vacant(cache[i]) || (cache[i].key != key && MissAt(cache, key, (i + 1) % |cache|, left - 1)))
  }

  lemma {:induction false} MissVacant(cache: seq<Entry>, key: Key, i: nat, left: nat)
    requires i < |cache| && MissAt(cache, key, i, left)
    ensures Fetched(cache, key, i, left).0 == MISS && Vacant(cache[Fetched(cache, key, i, left).1])
    decreases left
  {
    if !Vacant(cache[i]) { MissVacant(cache, key, (i + 1) % |cache|, left - 1); }
  }

  /** The slot the scoring function stores to: where the fetch ended, or the first slot after a collision. */
  function StoreSlot(cache: seq<Entry>, key: Key, i: nat, left: nat): (j: nat)
    requires i < |cache|
    ensures j < |cache|
  {
    var r := Fetched(cache, key, i, left);
    if r.0 == COLLISION then i else r.1
  }

  /** Fetched again right after it was stored, a valid score is found. */
  lemma StoreThenFetch(cache: seq<Entry>, f: Key -> int, key: Key, i: nat, left: nat)
    requires Truthful(cache, f) && i < |cache| && 0 < left < |cache| && key.publicKey != 0 && f(key) >= 0
    ensures Fetched(cache[StoreSlot(cache, key, i, left) := Entry(key, f(key))], key, i, left).0 == f(key)
  {
    FetchTruthful(cache, f, key, i, left);
    var r := Fetched(cache, key, i, left);
    if r.0 == f(key) {
      FoundStays(cache, f, key, i, left);
      assert cache[r.1 := Entry(key, f(key))] == cache;
    } else if r.0 == MISS {
      MissIsVacant(cache, f, key, i, left);
      StoreAtMiss(cache, key, f(key), i, left);
    }
  }

  lemma {:induction false} MissIsVacant(cache: seq<Entry>, f: Key -> int, key: Key, i: nat, left: nat)
    requires Truthful(cache, f) && i < |cache| && f(key) >= 0 && Fetched(cache, key, i, left).0 == MISS
    ensures MissAt(cache, key, i, left)
    decreases left
  {
    if !Vacant(cache[i]) { MissIsVacant(cache, f, key, (i + 1) % |cache|, left - 1); }
  }

  /** Storing a score again where it was found changes nothing. */
  lemma {:induction false} FoundStays(cache: seq<Entry>, f: Key -> int, key: Key, i: nat, left: nat)
    requires Truthful(cache, f) && i < |cache| && f(key) >= 0 && Fetched(cache, key, i, left).0 == f(key)
    ensures cache[Fetched(cache, key, i, left).1] == Entry(key, f(key))
    decreases left
  {
    if cache[i].key != key { FoundStays(cache, f, key, (i + 1) % |cache|, left - 1); }
  }

  // ----- Any interleaving -----

  /** The atomic steps of any number of threads: a store of a computed score, or a reset. Fetches change no entry. */
  datatype Op = Store(key: Key, slot: nat) | Clear

  ghost function After(cache: seq<Entry>, f: Key -> int, op: Op): seq<Entry>
    requires cache != []
  {
    match op
    case Store(k, i) => cache[i % |cache| := Entry(k, f(k))]
    case Clear => seq(|cache|, _ => EMPTY)
  }

  ghost function AfterAll(cache: seq<Entry>, f: Key -> int, ops: seq<Op>): (c: seq<Entry>)
    requires cache != []
    ensures |c| == |cache|
  {
    if ops == [] then cache else After(AfterAll(cache, f, ops[..|ops| - 1]), f, ops[|ops| - 1])
  }

  lemma {:induction false} AlwaysTruthful(cache: seq<Entry>, f: Key -> int, ops: seq<Op>)
    requires cache != [] && Truthful(cache, f)
    ensures Truthful(AfterAll(cache, f, ops), f)
  {
    if ops != [] { AlwaysTruthful(cache, f, ops[..|ops| - 1]); }
  }

  /** Whatever has been stored, overwritten or cleared, a fetch that returns a valid score returns the right one. */
  lemma FetchRight(cache: seq<Entry>, f: Key -> int, ops: seq<Op>, key: Key, i: nat, left: nat)
    requires cache != [] && Truthful(cache, f) && i < |cache| && Fetched(AfterAll(cache, f, ops), key, i, left).0 >= 0
    ensures Fetched(AfterAll(cache, f, ops), key, i, left).0 == f(key)
  {
    AlwaysTruthful(cache, f, ops);
    FetchTruthful(AfterAll(cache, f, ops), f, key, i, left);
  }

  /** A thread scores `key`: other threads act before its fetch and between its fetch and its store. */
  ghost function Returned(cache: seq<Entry>, f: Key -> int, before: seq<Op>, key: Key, i: nat, left: nat): int
    requires i < |cache|
  {
    var v := Fetched(AfterAll(cache, f, before), key, i, left).0;
    if v >= 0 then v else f(key)
  }

  /** What it leaves in the cache: nothing new after a valid fetch, otherwise its score where the fetch ended. */
  ghost function Left(cache: seq<Entry>, f: Key -> int, before: seq<Op>, between: seq<Op>, key: Key, i: nat,
                      left: nat): seq<Entry>
    requires i < |cache|
  {
    var c := AfterAll(cache, f, before);
    if Fetched(c, key, i, left).0 >= 0 then AfterAll(c, f, between)
    else AfterAll(c, f, between)[StoreSlot(c, key, i, left) := Entry(key, f(key))]
  }

  /** Scores are right and the cache stays truthful whatever the other threads do meanwhile. */
  lemma ScoreAnyRun(cache: seq<Entry>, f: Key -> int, before: seq<Op>, between: seq<Op>, key: Key, i: nat, left: nat)
    requires Truthful(cache, f) && i < |cache|
    ensures Returned(cache, f, before, key, i, left) == f(key)
    ensures Truthful(Left(cache, f, before, between, key, i, left), f)
  {
    var c := AfterAll(cache, f, before);
    AlwaysTruthful(cache, f, before);
    FetchTruthful(c, f, key, i, left);
    AlwaysTruthful(c, f, between);
  }

  // ----- The cache object -----

  class Cache {
    const cache: array<Entry>
    const retries: nat
    var hits: nat
    var misses: nat
    var collisions: nat

    ghost predicate Sizes() {
      0 < retries < cache.Length
    }

    constructor (size: nat, retries: nat)
      requires 0 < retries < size
      ensures Sizes() && cache.Length == size && this.retries == retries && fresh(cache)
      ensures forall i: nat :: i < size ==> cache[i] == EMPTY
    {
      cache := new Entry[size](_ => EMPTY);
      this.retries := retries;
      hits, misses, collisions := 0, 0, 0;
    }

    method Reset()
      modifies this, cache
      ensures forall i: nat :: i < cache.Length ==> cache[i] == EMPTY
      ensures hits == misses == collisions == 0
    {
      for i := 0 to cache.Length
        invariant forall j: nat :: j < i ==> cache[j] == EMPTY
      {
        cache[i] := EMPTY;
      }
      hits, misses, collisions := 0, 0, 0;
    }

    method TryFetching(key: Key, cacheIndex: nat) returns (score: int, cacheIndex': nat)
      requires Sizes()
      modifies this
      ensures score == Fetched(cache[..], key, cacheIndex % cache.Length, retries).0
      ensures cacheIndex'
           == if score == COLLISION then cacheIndex
              else Fetched(cache[..], key, cacheIndex % cache.Length, retries).1
      ensures collisions == old(collisions) + if score == -2 then 1 else 0
      ensures hits + misses == old(hits + misses) + 1 || (hits == old(hits) && misses == old(misses))
      ensures score >= 0 ==>
                hits == old(hits) + 1 && cacheIndex' < cache.Length && cache[cacheIndex'] == Entry(key, score)
      ensures score == -1 && misses == old(misses) + 1 ==> cacheIndex' < cache.Length && Vacant(cache[cacheIndex'])
      ensures score == -1 ==> misses == old(misses) + 1 || hits == old(hits) + 1
    {
      var i: nat := cacheIndex % cache.Length;
      var left: nat := retries;
      score := COLLISION;
      while left > 0
        invariant i < cache.Length && score == COLLISION
        invariant hits == old(hits) && misses == old(misses) && collisions == old(collisions)
        invariant Fetched(cache[..], key, i, left) == Fetched(cache[..], key, cacheIndex % cache.Length, retries)
      {
        if Vacant(cache[i]) {
          misses := misses + 1;
          score := MISS;
          break;
        }
        if cache[i].key == key {
          hits := hits + 1;
          score := cache[i].score;
          break;
        }
        i := (i + 1) % cache.Length;
        left := left - 1;
      }
      cacheIndex' := cacheIndex;
      if score == COLLISION {
        collisions := collisions + 1;
      } else {
        cacheIndex' := i;
      }
    }

    method AddEntry(key: Key, cacheIndex: nat, score: int)
      requires Sizes()
      modifies cache
      ensures cache[..] == old(cache[..])[cacheIndex % cache.Length := Entry(key, score)]
    {
      cache[cacheIndex % cache.Length] := Entry(key, score);
    }

    /** The scoring function with the cache: refused inputs aside, always the computed score, and the
        cache stays truthful. `hash` gives the first slot of a key. */
    method Score(key: Key, canonical: bool, currentSeed: nat, invalid: int, hash: Key -> nat, compute: Key -> int)
      returns (score: int)
      requires Sizes() && Truthful(cache[..], compute)
      modifies this, cache
      ensures Truthful(cache[..], compute)
      ensures score
           == if !canonical || key.miningSeed == 0 || key.miningSeed != currentSeed then invalid else compute(key)
    {
      if !canonical {
        return invalid;
      }
      if key.miningSeed == 0 || key.miningSeed != currentSeed {
        return invalid;
      }
      var index := hash(key) % cache.Length;
      FetchTruthful(cache[..], compute, key, index % cache.Length, retries);
      score, index := TryFetching(key, index);
      if score >= 0 {
        return;
      }
      score := compute(key);
      StoreTruthful(cache[..], compute, key, index % cache.Length);
      AddEntry(key, index, score);
    }
  }
}
