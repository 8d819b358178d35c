/** Bidding in a contract IPO: the order book updated in place, refunds merged by bidder, and the
    balances of the bidders. */
module IpoAuction {
  import opened AssetTable
  import opened TopK
  import opened OrderBook

  const MAX_AMOUNT: nat := 1_000_000_000_000_000

  /** Amounts are signed 64-bit numbers. */
  type Amount = x: int | 0 <= x <= 0x7FFF_FFFF_FFFF_FFFF

  ghost function BookOf(keys: seq<PublicKey>, prices: seq<nat>): (book: seq<Bid>)
    requires |keys| == |prices|
    ensures |book| == |keys| && forall i: nat :: i < |keys| ==> book[i] == Bid(keys[i], prices[i])
  {
    seq(|keys|, (i: nat) requires i < |keys| => Bid(keys[i], prices[i]))
  }

  function Balance(energy: map<PublicKey, nat>, k: PublicKey): nat {
    if k in energy then energy[k] else 0
  }

  /** `amount` has been taken from the balance of `key`. */
  ghost predicate Debited(energy0: map<PublicKey, nat>, energy: map<PublicKey, nat>, key: PublicKey, amount: nat) {
    forall k: PublicKey :: DebitedAt(energy0, energy, key, amount, k)
  }

  ghost predicate DebitedAt(energy0: map<PublicKey, nat>, energy: map<PublicKey, nat>, key: PublicKey, amount: nat,
                            k: PublicKey)
  {
    Balance(energy0, k) == Balance(energy, k) + if k == key then amount else 0
  }

  /** Every real bidder has been credited what the table owes. */
  ghost predicate Credited(energy0: map<PublicKey, nat>, energy: map<PublicKey, nat>, table: seq<Bid>) {
    forall k: PublicKey :: k != ZERO_KEY ==> CreditedAt(energy0, energy, table, k)
  }

  ghost predicate CreditedAt(energy0: map<PublicKey, nat>, energy: map<PublicKey, nat>, table: seq<Bid>, k: PublicKey) {
    Balance(energy, k) == Balance(energy0, k) + Paid(table, k)
  }

  ghost predicate Increased(energy0: map<PublicKey, nat>, energy: map<PublicKey, nat>, key: PublicKey, amount: nat) {
    forall k: PublicKey :: k != ZERO_KEY ==> IncreasedAt(energy0, energy, key, amount, k)
  }

  ghost predicate IncreasedAt(energy0: map<PublicKey, nat>, energy: map<PublicKey, nat>, key: PublicKey, amount: nat,
                              k: PublicKey)
  {
    Balance(energy, k) == Balance(energy0, k) + if k == key then amount else 0
  }

  /** Crediting one more entry. */
  lemma CreditStep(energy0: map<PublicKey, nat>, energy1: map<PublicKey, nat>, energy: map<PublicKey, nat>,
                   table: seq<Bid>)
    requires table != [] && Credited(energy0, energy1, table[..|table| - 1])
    requires var b := table[|table| - 1];
             Increased(energy1, energy, b.key, b.price) || (b.price == 0 && energy == energy1)
    ensures Credited(energy0, energy, table)
  {
    var b, rest := table[|table| - 1], table[..|table| - 1];
    forall k: PublicKey | k != ZERO_KEY ensures CreditedAt(energy0, energy, table, k) {
      assert CreditedAt(energy0, energy1, rest, k);
      assert Increased(energy1, energy, b.key, b.price) ==> IncreasedAt(energy1, energy, b.key, b.price, k);
    }
  }

  /** Refunds and book take in exactly what book and new bids held, for every bidder and in all. */
  ghost predicate Conserved(book: seq<Bid>, released: seq<Bid>, book0: seq<Bid>, units: seq<Bid>) {
    && (forall k: PublicKey :: ConservedFor(book, released, book0, units, k))
    && Total(book) + Total(released) == Total(book0) + Total(units)
  }

  ghost predicate ConservedFor(book: seq<Bid>, released: seq<Bid>, book0: seq<Bid>, units: seq<Bid>, k: PublicKey) {
    Paid(book, k) + Paid(released, k) == Paid(book0, k) + Paid(units, k)
  }

  /** `table'` owes `amount` more to `key`, and otherwise what `table` owes. */
  ghost predicate Owes(table: seq<Bid>, table': seq<Bid>, key: PublicKey, amount: nat) {
    && (forall k: PublicKey :: OwesAt(table, table', key, amount, k))
    && Total(table') == Total(table) + amount
  }

  ghost predicate OwesAt(table: seq<Bid>, table': seq<Bid>, key: PublicKey, amount: nat, k: PublicKey) {
    Paid(table', k) == Paid(table, k) + PaidBy(Bid(key, amount), k)
  }

  lemma OwesNew(table: seq<Bid>, key: PublicKey, amount: nat)
    ensures Owes(table, table + [Bid(key, amount)], key, amount)
  {
    var table' := table + [Bid(key, amount)];
    forall k: PublicKey ensures OwesAt(table, table', key, amount, k) {
      PaidConcat(table, [Bid(key, amount)], k);
      PaidOne(Bid(key, amount), k);
    }
    PaidConcat(table, [Bid(key, amount)], key);
    PaidOne(Bid(key, amount), key);
  }

  lemma {:induction false} PaidMore(table: seq<Bid>, j: nat, amount: nat, k: PublicKey)
    requires j < |table|
    ensures var b := table[j]; var table' := table[j := Bid(b.key, b.price + amount)];
            Paid(table', k) == Paid(table, k) + PaidBy(Bid(b.key, amount), k) && Total(table') == Total(table) + amount
  {
    var n := |table| - 1;
    var b := table[j];
    var table' := table[j := Bid(b.key, b.price + amount)];
    if j < n {
      assert table'[..n] == table[..n][j := Bid(b.key, b.price + amount)];
      PaidMore(table[..n], j, amount, k);
    } else {
      assert table'[..n] == table[..n];
    }
  }

  lemma OwesMore(table: seq<Bid>, j: nat, amount: nat)
    requires j < |table|
    ensures Owes(table, table[j := Bid(table[j].key, table[j].price + amount)], table[j].key, amount)
  {
    PaidMore(table, j, amount, table[j].key);
    var table' := table[j := Bid(table[j].key, table[j].price + amount)];
    forall k: PublicKey ensures OwesAt(table, table', table[j].key, amount, k) {
      PaidMore(table, j, amount, k);
    }
  }

  ghost function Repeat(b: Bid, n: nat): (bs: seq<Bid>)
    ensures |bs| == n && forall i: nat :: i < n ==> bs[i] == b
  {
    seq(n, _ => b)
  }

  lemma {:induction false} PaidRepeat(b: Bid, n: nat, k: PublicKey)
    ensures Paid(Repeat(b, n), k) == (if b.key == k then n * b.price else 0) && Total(Repeat(b, n)) == n * b.price
  {
    if n > 0 {
      assert Repeat(b, n)[..n - 1] == Repeat(b, n - 1);
      PaidRepeat(b, n - 1, k);
      assert n * b.price == (n - 1) * b.price + b.price;
    }
  }

  /** One unit bid placed, one bid released: the balance is kept. */
  lemma ConserveStep(book: seq<Bid>, released: seq<Bid>, book0: seq<Bid>, b: Bid, n: nat, i: nat, released': seq<Bid>)
    requires Conserved(book, released, book0, Repeat(b, n)) && i <= |book|
    requires var d := Dropped(book, b, i); Owes(released, released', d.key, d.price)
    ensures Conserved(Placed(book, b, i), released', book0, Repeat(b, n + 1))
  {
    var d, book', units := Dropped(book, b, i), Placed(book, b, i), Repeat(b, n + 1);
    forall k: PublicKey ensures ConservedFor(book', released', book0, units, k) {
      assert ConservedFor(book, released, book0, Repeat(b, n), k);
      PlacedMoney(book, b, i, k);
      NextRepeat(b, n, k);
      assert OwesAt(released, released', d.key, d.price, k);
    }
    PlacedMoney(book, b, i, b.key);
    NextRepeat(b, n, b.key);
  }

  lemma NextRepeat(b: Bid, n: nat, k: PublicKey)
    ensures Repeat(b, n + 1) == Repeat(b, n) + [b]
    ensures Paid(Repeat(b, n + 1), k) == Paid(Repeat(b, n), k) + PaidBy(b, k)
    ensures Total(Repeat(b, n + 1)) == Total(Repeat(b, n)) + b.price
  {
    PaidConcat(Repeat(b, n), [b], k);
    PaidOne(b, k);
  }

  /** Only real bidders have money in the book. */
  ghost predicate Named(bids: seq<Bid>) {
    forall i: nat :: i < |bids| && bids[i].key == ZERO_KEY ==> bids[i].price == 0
  }

  lemma {:induction false} NamedPaid(bids: seq<Bid>)
    requires Named(bids)
    ensures Paid(bids, ZERO_KEY) == 0
  {
    if bids != [] { NamedPaid(bids[..|bids| - 1]); }
  }

  /** The highest price for a unit when there are `n` places. */
  function Cap(n: nat): nat
    requires n > 0
  {
    MAX_AMOUNT / n
  }

  lemma ShareOfCap(m: nat, price: nat, n: nat)
    requires 0 < n && m <= n && price <= Cap(n)
    ensures m * price <= MAX_AMOUNT
  {
    var cap := Cap(n);
    assert m * price <= m * cap <= n * cap;
    assert MAX_AMOUNT == n * cap + MAX_AMOUNT % n;
  }

  ghost predicate Capped(book: seq<Bid>) {
    book != [] && forall i: nat :: i < |book| ==> book[i].price <= Cap(|book|)
  }

  lemma {:induction false} TotalBelow(bids: seq<Bid>, cap: nat)
    requires forall i: nat :: i < |bids| ==> bids[i].price <= cap
    ensures Total(bids) <= |bids| * cap
  {
    if bids != [] {
      TotalBelow(bids[..|bids| - 1], cap);
      assert |bids| * cap == (|bids| - 1) * cap + cap;
    }
  }

  /** The money in the book stays within the limit. */
  lemma CappedTotal(book: seq<Bid>)
    requires Capped(book)
    ensures Total(book) <= MAX_AMOUNT
  {
    TotalBelow(book, Cap(|book|));
    ShareOfCap(|book|, Cap(|book|), |book|);
  }

  lemma PlacedCapped(book: seq<Bid>, b: Bid, i: nat)
    requires Capped(book) && i <= |book| && b.price <= Cap(|book|)
    ensures Capped(Placed(book, b, i))
  {
    forall r: nat | r < |book| ensures Placed(book, b, i)[r].price <= Cap(|book|) {
      assert Placed(book, b, i)[r] == if r < i then book[r] else if r == i then b else book[r - 1];
    }
  }

  lemma {:induction false} PriceWithin(bids: seq<Bid>, j: nat)
    requires j < |bids|
    ensures bids[j].price <= Total(bids)
  {
    if j < |bids| - 1 { PriceWithin(bids[..|bids| - 1], j); }
  }

  /** What has been released after `n` units, and one more price, fit into an amount. */
  lemma UnitsFit(book: seq<Bid>, released: seq<Bid>, book0: seq<Bid>, b: Bid, n: nat)
    requires Capped(book) && Capped(book0) && |book| == |book0| && b.price <= Cap(|book0|) && n <= |book0|
    requires Conserved(book, released, book0, Repeat(b, n))
    ensures Total(released) + b.price <= MAX_INT64 && Total(released) + book[|book| - 1].price <= MAX_INT64
  {
    CappedTotal(book0);
    CappedTotal(book);
    PriceWithin(book, |book| - 1);
    PaidRepeat(b, n, b.key);
    ShareOfCap(n, b.price, |book0|);
    ShareOfCap(1, b.price, |book0|);
  }

  /** How many of `n` equal unit bids find a place, one after the other. */
  ghost function Entered(book: seq<Bid>, b: Bid, n: nat): nat
    requires book != []
    decreases n
  {
    if n == 0 || b.price <= book[|book| - 1].price then 0
    else 1 + Entered(Placed(book, b, AtLeast(Prices(book), b.price)), b, n - 1)
  }

  /** The number of units that win a place: all, or as many as there are places below their price. */
  ghost function Winning(book: seq<Bid>, price: nat, n: nat): nat {
    var below := |book| - AtLeast(Prices(book), price);
    if n < below then n else below
  }

  /** The places below the price, counted as a set. */
  lemma {:induction false} WinningPlaces(book: seq<Bid>, price: nat, n: nat)
    ensures var below := |set i: nat | i < |book| && book[i].price < price|;
            Winning(book, price, n) == if n < below then n else below
  {
    PlacesBelow(book, price);
  }

  lemma {:induction false} PlacesBelow(book: seq<Bid>, price: nat)
    ensures |book| - AtLeast(Prices(book), price) == |set i: nat | i < |book| && book[i].price < price|
  {
    var below := set i: nat | i < |book| && book[i].price < price;
    if book == [] {
      assert below == {};
    } else {
      var m := |book| - 1;
      var before := set i: nat | i < |book[..m]| && book[..m][i].price < price;
      PlacesBelow(book[..m], price);
      assert Prices(book)[..m] == Prices(book[..m]);
      assert below == if book[m].price < price then before + {m} else before;
    }
  }

  /** Units find a place until every place pays at least as much. */
  lemma {:induction false} EnteredCount(book: seq<Bid>, b: Bid, n: nat)
    requires book != [] && Descending(Prices(book))
    ensures Entered(book, b, n) == Winning(book, b.price, n)
    decreases n
  {
    LastReaches(book, b.price);
    if n > 0 && b.price > book[|book| - 1].price {
      WinningStep(book, b, n);
      EnteredCount(Placed(book, b, AtLeast(Prices(book), b.price)), b, n - 1);
    }
  }

  lemma LastReaches(book: seq<Bid>, price: nat)
    requires book != [] && Descending(Prices(book))
    ensures AtLeast(Prices(book), price) == |book| <==> price <= book[|book| - 1].price
  {
    AtLeastFull(Prices(book), price);
  }

  /** One unit that finds a place leaves one place less for the others. */
  lemma WinningStep(book: seq<Bid>, b: Bid, n: nat)
    requires book != [] && Descending(Prices(book)) && n > 0 && b.price > book[|book| - 1].price
    ensures var book' := Placed(book, b, AtLeast(Prices(book), b.price));
            Descending(Prices(book')) && Winning(book, b.price, n) == 1 + Winning(book', b.price, n - 1)
  {
    LastReaches(book, b.price);
    CountPlace(book, b.price);
    PlacedCount(book, b, AtLeast(Prices(book), b.price));
  }

  class Auction {
    const publicKeys: array<PublicKey>
    const prices: array<Amount>
    const releasedPublicKeys: array<PublicKey>
    const releasedAmounts: array<Amount>
    var numberOfReleasedEntities: nat
    var energy: map<PublicKey, nat>
    ghost var bids: seq<Bid>

    /** The tables have one size and do not overlap. */
    ghost predicate Sizes() {
      && 0 < prices.Length == publicKeys.Length == releasedPublicKeys.Length == releasedAmounts.Length
      && publicKeys != releasedPublicKeys && prices != releasedAmounts
    }

    ghost predicate Shape()
      reads `numberOfReleasedEntities
    {
      Sizes() && numberOfReleasedEntities <= prices.Length
    }

    ghost function Book(): (book: seq<Bid>)
      requires Sizes()
      reads publicKeys, prices
      ensures |book| == prices.Length
    {
      BookOf(publicKeys[..], prices[..])
    }

    ghost function Released(): (table: seq<Bid>)
      requires Shape()
      reads `numberOfReleasedEntities, releasedPublicKeys, releasedAmounts
      ensures |table| == numberOfReleasedEntities
    {
      BookOf(releasedPublicKeys[..numberOfReleasedEntities], releasedAmounts[..numberOfReleasedEntities])
    }

    /** The book holds the best of all bids made so far, within the limit for prices. */
    ghost predicate Valid()
      reads `numberOfReleasedEntities, `bids, publicKeys, prices
    {
      Shape() && IsBest(Book(), bids) && Named(Book()) && Capped(Book())
    }

    constructor (n: nat, energy: map<PublicKey, nat>)
      requires n > 0
      ensures Valid() && prices.Length == n && bids == [] && this.energy == energy
      ensures fresh(publicKeys) && fresh(prices) && fresh(releasedPublicKeys) && fresh(releasedAmounts)
    {
      publicKeys := new PublicKey[n](_ => ZERO_KEY);
      prices := new Amount[n](_ => 0);
      releasedPublicKeys := new PublicKey[n](_ => ZERO_KEY);
      releasedAmounts := new Amount[n](_ => 0);
      numberOfReleasedEntities := 0;
      this.energy := energy;
      bids := [];
      new;
      EmptyBest(n, Book());
    }

    /** Adds `amount` to what is owed to `key`, in its entry or a new one. */
    method Release(key: PublicKey, amount: nat)
      requires Shape() && numberOfReleasedEntities < prices.Length && Total(Released()) + amount <= MAX_INT64
      modifies `numberOfReleasedEntities, releasedPublicKeys, releasedAmounts
      ensures Shape() && numberOfReleasedEntities <= old(numberOfReleasedEntities) + 1
      ensures Owes(old(Released()), Released(), key, amount)
    {
      var j := 0;
      while j < numberOfReleasedEntities && key != releasedPublicKeys[j]
        invariant j <= numberOfReleasedEntities
      {
        j := j + 1;
      }
      ghost var table := Released();
      if j == numberOfReleasedEntities {
        releasedPublicKeys[j] := key;
        releasedAmounts[j] := amount;
        numberOfReleasedEntities := numberOfReleasedEntities + 1;
        OwesNew(table, key, amount);
        assert Released() == table + [Bid(key, amount)];
      } else {
        PriceWithin(table, j);
        releasedAmounts[j] := releasedAmounts[j] + amount;
        OwesMore(table, j, amount);
        assert Released() == table[j := Bid(table[j].key, table[j].price + amount)];
      }
    }

    /** Swaps the bids at `j - 1` and `j`. */
    method SwapUp(j: nat)
      requires Sizes() && 0 < j < prices.Length
      modifies publicKeys, prices
      ensures Book() == old(Book())[j - 1 := old(Book())[j]][j := old(Book())[j - 1]]
    {
      ghost var book := Book();
      publicKeys[j - 1], publicKeys[j] := publicKeys[j], publicKeys[j - 1];
      prices[j - 1], prices[j] := prices[j], prices[j - 1];
      assert Book() == book[j - 1 := book[j]][j := book[j - 1]];
    }

    /** Moves the new bid up by one place. */
    method MoveUp(ghost book: seq<Bid>, ghost b: Bid, j: nat)
      requires Sizes() && 0 < j < prices.Length && Moving(Book(), book, b, j) && prices[j - 1] < prices[j]
      modifies publicKeys, prices
      ensures Moving(Book(), book, b, j - 1)
    {
      MovedUp(book, b, j);
      SwapUp(j);
    }

    /** Replaces the last bid by a higher one. */
    method WriteLast(source: PublicKey, price: Amount)
      requires Sizes() && price > prices[prices.Length - 1]
      modifies publicKeys, prices
      ensures Moving(Book(), old(Book()), Bid(source, price), prices.Length - 1)
    {
      ghost var book := Book();
      publicKeys[prices.Length - 1] := source;
      prices[prices.Length - 1] := price;
      assert Book() == Moved(book, Bid(source, price), prices.Length - 1);
    }

    /** Replaces the last bid and moves the new one up to its place. */
    method Place(source: PublicKey, price: Amount) returns (ghost i: nat)
      requires Sizes() && price > prices[prices.Length - 1]
      modifies publicKeys, prices
      ensures PlaceOf(old(Book()), price, i) && i < prices.Length
      ensures Book() == Placed(old(Book()), Bid(source, price), i)
    {
      ghost var book, b := Book(), Bid(source, price);
      var j := prices.Length - 1;
      WriteLast(source, price);
      while j > 0 && prices[j - 1] < prices[j]
        invariant 0 <= j < prices.Length && Moving(Book(), book, b, j)
      {
        MoveUp(book, b, j);
        j := j - 1;
      }
      i := j;
      MovingDone(Book(), book, b, j);
    }

    /** One unit of a bid: placed if it pays more than the last bid, otherwise released at once. */
    method BidUnit(source: PublicKey, price: Amount) returns (entered: bool, ghost i: nat)
      requires Shape() && Descending(Prices(Book())) && numberOfReleasedEntities < prices.Length
      requires Total(Released()) + price <= MAX_INT64 && Total(Released()) + prices[prices.Length - 1] <= MAX_INT64
      modifies `numberOfReleasedEntities, publicKeys, prices, releasedPublicKeys, releasedAmounts
      ensures Shape() && numberOfReleasedEntities <= old(numberOfReleasedEntities) + 1
      ensures entered == (price > old(prices[prices.Length - 1]))
      ensures UnitStep(old(Book()), old(Released()), Book(), Released(), Bid(source, price), i)
    {
      var n := prices.Length;
      ghost var book, table, b := Book(), Released(), Bid(source, price);
      entered := price > prices[n - 1];
      if !entered {
        Release(source, price);
        i := n;
        StepNowhere(book, table, Released(), b);
      } else {
        Release(publicKeys[n - 1], prices[n - 1]);
        i := Place(source, price);
        StepPlaced(book, table, Book(), Released(), b, i);
      }
    }

    /** What the units of a bid have done so far. */
    ghost predicate Bidding(book0: seq<Bid>, bids0: seq<Bid>, b: Bid, n: nat)
      reads `numberOfReleasedEntities, `bids, publicKeys, prices, releasedPublicKeys, releasedAmounts
    {
      && Valid() && numberOfReleasedEntities <= n && bids == bids0 + Repeat(b, n)
      && Conserved(Book(), Released(), book0, Repeat(b, n))
    }

    /** Unit `n` of a bid. */
    method BidNext(source: PublicKey, price: Amount, ghost book0: seq<Bid>, ghost bids0: seq<Bid>, ghost n: nat,
                   ghost registered: nat, ghost left: nat)
      returns (entered: bool)
      requires left > 0 && Progress(book0, bids0, Bid(source, price), n, registered, left) && n < prices.Length
      requires price > 0 && source != ZERO_KEY
      modifies `numberOfReleasedEntities, `bids, publicKeys, prices, releasedPublicKeys, releasedAmounts
      ensures Progress(book0, bids0, Bid(source, price), n + 1, registered + (if entered then 1 else 0), left - 1)
    {
      ghost var book, table, b := Book(), Released(), Bid(source, price);
      ghost var i: nat;
      UnitsFit(book, table, book0, b, n);
      entered, i := BidUnit(source, price);
      bids := bids + [b];
      PlacedCapped(book, b, i);
      UnitDone(book, table, Book(), Released(), book0, bids0, b, n, i);
      UnitEntered(book, b, i, left);
    }

    /** Credits what is owed. */
    method PayOut()
      requires Shape()
      modifies `energy
      ensures Credited(old(energy), energy, Released())
    {
      for i := 0 to numberOfReleasedEntities
        invariant Credited(old(energy), energy, Released()[..i])
      {
        assert Released()[..i + 1][..i] == Released()[..i];
        assert Released()[..i + 1][i] == Bid(releasedPublicKeys[i], releasedAmounts[i]);
        ghost var energy0 := energy;
        if releasedAmounts[i] != 0 {
          IncreaseEnergy(releasedPublicKeys[i], releasedAmounts[i]);
        }
        CreditStep(old(energy), energy0, energy, Released()[..i + 1]);
      }
      assert Released()[..numberOfReleasedEntities] == Released();
    }

    method IncreaseEnergy(key: PublicKey, amount: nat)
      modifies `energy
      ensures Increased(old(energy), energy, key, amount)
    {
      if key != ZERO_KEY {
        energy := energy[key := Balance(energy, key) + amount];
      }
    }

    method DecreaseEnergy(key: PublicKey, amount: nat) returns (ok: bool)
      requires key in energy
      modifies `energy
      ensures ok == (Balance(old(energy), key) >= amount) && (!ok ==> energy == old(energy))
      ensures ok ==> Debited(old(energy), energy, key, amount)
    {
      ok := energy[key] >= amount;
      if ok {
        energy := energy[key := energy[key] - amount];
      }
    }

    /** Bidding is under way: `registered` units have a place, and `left` more are to come. */
    ghost predicate Progress(book0: seq<Bid>, bids0: seq<Bid>, b: Bid, n: nat, registered: nat, left: nat)
      reads `numberOfReleasedEntities, `bids, publicKeys, prices, releasedPublicKeys, releasedAmounts
    {
      && Bidding(book0, bids0, b, n) && Capped(book0) && |book0| == prices.Length && b.price <= Cap(|book0|)
      && registered + Entered(Book(), b, left) == Entered(book0, b, n + left)
    }

    method StartBids(ghost b: Bid, ghost quantity: nat)
      requires Valid() && b.price <= Cap(prices.Length)
      modifies `numberOfReleasedEntities
      ensures Progress(Book(), bids, b, 0, 0, quantity)
    {
      numberOfReleasedEntities := 0;
      StartBidding(Book(), bids, b);
    }

    /** The units of an accepted bid. Afterwards the book is the best of all bids, and book and refunds
        hold what the book and the payment held. */
    method BidUnits(source: PublicKey, price: Amount, quantity: nat) returns (registered: nat)
      requires Valid() && 0 < price <= Cap(prices.Length) && quantity <= prices.Length && source != ZERO_KEY
      modifies `numberOfReleasedEntities, `bids, publicKeys, prices, releasedPublicKeys, releasedAmounts
      ensures Bidding(old(Book()), old(bids), Bid(source, price), quantity)
      ensures registered == Entered(old(Book()), Bid(source, price), quantity)
    {
      ghost var book0, bids0, b := Book(), bids, Bid(source, price);
      registered := 0;
      StartBids(b, quantity);
      for n := 0 to quantity
        invariant Progress(book0, bids0, b, n, registered, quantity - n)
      {
        var entered := BidNext(source, price, book0, bids0, n, registered, quantity - n);
        if entered {
          registered := registered + 1;
        }
      }
    }

    /** A bid whose `amount` has been taken from the bidder: its units, and the refunds. */
    method AcceptBid(source: PublicKey, price: Amount, quantity: nat, ghost amount: nat,
                     ghost energy0: map<PublicKey, nat>)
      returns (registered: nat)
      requires Valid() && 0 < price <= Cap(prices.Length) && quantity <= prices.Length && source != ZERO_KEY
      requires amount == quantity * price && Debited(energy0, energy, source, amount)
      modifies this, publicKeys, prices, releasedPublicKeys, releasedAmounts
      ensures Valid() && numberOfReleasedEntities <= quantity
      ensures bids == old(bids) + Repeat(Bid(source, price), quantity)
      ensures registered == Winning(old(Book()), price, quantity)
      ensures amount + Total(old(Book())) == Total(Released()) + Total(Book())
      ensures Total(Book()) <= MAX_AMOUNT && Total(Released()) <= 2 * MAX_AMOUNT
      ensures forall k: PublicKey :: k != ZERO_KEY ==>
                Balance(energy, k) + Paid(Book(), k) == Balance(energy0, k) + Paid(old(Book()), k)
    {
      ghost var book0, energy1, b := Book(), energy, Bid(source, price);
      registered := BidUnits(source, price, quantity);
      PayOut();
      EnteredCount(book0, b, quantity);
      CappedTotal(book0);
      CappedTotal(Book());
      ShareOfCap(quantity, price, prices.Length);
      BidMoney(book0, Book(), Released(), b, quantity, amount, energy0, energy1, energy);
    }

    /** `bidInContractIPO` for a bidder in the spectrum. A refused bid changes nothing. An accepted one leaves
        every bidder with the same money in balance and book together. */
    method BidInContractIPO(price: int, quantity: nat, source: PublicKey) returns (registeredBids: int)
      requires Valid() && source in energy && source != ZERO_KEY
      modifies this, publicKeys, prices, releasedPublicKeys, releasedAmounts
      ensures Valid()
      ensures registeredBids == -1 <==>
                !(0 < price <= 1_000_000_000_000_000 / prices.Length && 0 < quantity <= prices.Length
                  && price * quantity <= Balance(old(energy), source))
      ensures registeredBids == -1 ==> bids == old(bids) && Book() == old(Book()) && energy == old(energy)
      ensures registeredBids != -1 ==>
                && bids == old(bids) + Repeat(Bid(source, price), quantity)
                && registeredBids == Winning(old(Book()), price, quantity)
                && numberOfReleasedEntities <= quantity
                && price * quantity + Total(old(Book())) == Total(Released()) + Total(Book())
                && price * quantity <= MAX_AMOUNT && Total(Book()) <= MAX_AMOUNT && Total(Released()) <= 2 * MAX_AMOUNT
      ensures forall k: PublicKey :: k != ZERO_KEY ==>
                Balance(energy, k) + Paid(Book(), k) == Balance(old(energy), k) + Paid(old(Book()), k)
    {
      registeredBids := -1;
      if 0 < price <= Cap(prices.Length) && 0 < quantity <= prices.Length {
        ghost var energy0 := energy;
        ShareOfCap(quantity, price, prices.Length);
        var amount: Amount := price * quantity;
        var ok := DecreaseEnergy(source, amount);
        if ok {
          registeredBids := AcceptBid(source, price, quantity, amount, energy0);
        }
      }
    }
  }

  /** The book without its last bid, and `b` at place `j`. */
  ghost function Moved(book: seq<Bid>, b: Bid, j: nat): (r: seq<Bid>)
    requires j < |book|
    ensures |r| == |book| && r[j] == b
  {
    book[..j] + [b] + book[j..|book| - 1]
  }

  lemma MovedUp(book: seq<Bid>, b: Bid, j: nat)
    requires 0 < j < |book|
    ensures var m := Moved(book, b, j);
            m[j - 1] == book[j - 1] && Moved(book, b, j - 1) == m[j - 1 := m[j]][j := m[j - 1]]
  {
  }

  /** `b` has moved up to place `j` past lower bids. */
  ghost predicate Moving(cur: seq<Bid>, book: seq<Bid>, b: Bid, j: nat) {
    j < |book| && cur == Moved(book, b, j) && forall r: nat :: j <= r < |book| ==> book[r].price < b.price
  }

  lemma MovingDone(cur: seq<Bid>, book: seq<Bid>, b: Bid, j: nat)
    requires Moving(cur, book, b, j) && (j == 0 || cur[j - 1].price >= cur[j].price)
    ensures PlaceOf(book, b.price, j) && cur == Placed(book, b, j)
  {
    assert j > 0 ==> cur[j - 1] == book[j - 1];
  }

  lemma PlacedNowhere(book: seq<Bid>, b: Bid)
    ensures Placed(book, b, |book|) == book
  {
  }

  /** A bid found its place `i` and the bid it pushed out is owed to its bidder. */
  ghost predicate UnitStep(book: seq<Bid>, table: seq<Bid>, book': seq<Bid>, table': seq<Bid>, b: Bid, i: nat) {
    && PlaceOf(book, b.price, i) && book' == Placed(book, b, i)
    && var d := Dropped(book, b, i);
    Owes(table, table', d.key, d.price)
  }

  lemma StepNowhere(book: seq<Bid>, table: seq<Bid>, table': seq<Bid>, b: Bid)
    requires book != [] && b.price <= book[|book| - 1].price && Owes(table, table', b.key, b.price)
    ensures UnitStep(book, table, book, table', b, |book|)
  {
    PlacedNowhere(book, b);
  }

  lemma StepPlaced(book: seq<Bid>, table: seq<Bid>, book': seq<Bid>, table': seq<Bid>, b: Bid, i: nat)
    requires i < |book| && PlaceOf(book, b.price, i) && book' == Placed(book, b, i)
    requires Owes(table, table', book[|book| - 1].key, book[|book| - 1].price)
    ensures UnitStep(book, table, book', table', b, i)
  {
  }

  lemma PlacedNamed(book: seq<Bid>, b: Bid, i: nat)
    requires i <= |book| && Named(book) && b.key != ZERO_KEY
    ensures Named(Placed(book, b, i))
  {
    forall r: nat | r < |book| && Placed(book, b, i)[r].key == ZERO_KEY ensures Placed(book, b, i)[r].price == 0 {
      assert Placed(book, b, i)[r] == if r < i then book[r] else if r == i then b else book[r - 1];
    }
  }

  lemma StartBidding(book: seq<Bid>, bids: seq<Bid>, b: Bid)
    ensures Repeat(b, 0) == [] && bids + Repeat(b, 0) == bids && Conserved(book, BookOf([], []), book, Repeat(b, 0))
  {
    assert BookOf([], []) == [] && Repeat(b, 0) == [];
    forall k: PublicKey ensures ConservedFor(book, [], book, Repeat(b, 0), k) {
    }
  }

  lemma RepeatNext(bids: seq<Bid>, b: Bid, n: nat)
    ensures bids + Repeat(b, n) + [b] == bids + Repeat(b, n + 1)
  {
    assert Repeat(b, n + 1) == Repeat(b, n) + [b];
  }

  /** The book is the best of all bids again. */
  lemma UnitBest(book: seq<Bid>, book': seq<Bid>, bids: seq<Bid>, b: Bid, i: nat)
    requires book != [] && IsBest(book, bids) && Named(book) && b.price > 0 && b.key != ZERO_KEY
    requires PlaceOf(book, b.price, i) && book' == Placed(book, b, i)
    ensures IsBest(book', bids + [b]) && Named(book')
  {
    PlacedBest(book, bids, b, i);
    PlacedNamed(book, b, i);
  }

  lemma UnitDone(book: seq<Bid>, table: seq<Bid>, book': seq<Bid>, table': seq<Bid>, book0: seq<Bid>, bids0: seq<Bid>,
                 b: Bid, n: nat, i: nat)
    requires book != [] && IsBest(book, bids0 + Repeat(b, n)) && Named(book)
    requires Conserved(book, table, book0, Repeat(b, n))
    requires b.price > 0 && b.key != ZERO_KEY && UnitStep(book, table, book', table', b, i)
    ensures IsBest(book', bids0 + Repeat(b, n) + [b]) && bids0 + Repeat(b, n) + [b] == bids0 + Repeat(b, n + 1)
    ensures Named(book') && Conserved(book', table', book0, Repeat(b, n + 1))
  {
    UnitBest(book, book', bids0 + Repeat(b, n), b, i);
    ConserveStep(book, table, book0, b, n, i, table');
    RepeatNext(bids0, b, n);
  }

  lemma UnitEntered(book: seq<Bid>, b: Bid, i: nat, left: nat)
    requires book != [] && Descending(Prices(book)) && PlaceOf(book, b.price, i) && left > 0
    ensures Entered(book, b, left)
              == (if b.price > book[|book| - 1].price then 1 else 0) + Entered(Placed(book, b, i), b, left - 1)
  {
    PlaceCount(book, b.price, i);
    PlacedNowhere(book, b);
  }

  /** Balance and book together hold what they held before the bid, for every bidder. */
  lemma {:induction false} BidMoney(book0: seq<Bid>, book: seq<Bid>, released: seq<Bid>, b: Bid, n: nat, amount: nat,
                 energy0: map<PublicKey, nat>, energy1: map<PublicKey, nat>, energy: map<PublicKey, nat>)
    requires Conserved(book, released, book0, Repeat(b, n)) && amount == n * b.price
    requires Debited(energy0, energy1, b.key, amount) && Credited(energy1, energy, released)
    ensures amount + Total(book0) == Total(released) + Total(book)
    ensures forall k: PublicKey :: k != ZERO_KEY ==>
              Balance(energy, k) + Paid(book, k) == Balance(energy0, k) + Paid(book0, k)
  {
    PaidRepeat(b, n, b.key);
    forall k: PublicKey | k != ZERO_KEY
      ensures Balance(energy, k) + Paid(book, k) == Balance(energy0, k) + Paid(book0, k)
    {
      assert DebitedAt(energy0, energy1, b.key, amount, k) && CreditedAt(energy1, energy, released, k);
      assert ConservedFor(book, released, book0, Repeat(b, n), k);
      PaidRepeat(b, n, k);
    }
  }
}
