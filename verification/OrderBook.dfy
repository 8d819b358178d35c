/** The order book of a contract IPO: the best bids by price, earlier bids first among equals. */
module OrderBook {
  import opened AssetTable
  import opened TopK

  datatype Bid = Bid(key: PublicKey, price: nat)

  const NO_BID: Bid := Bid(ZERO_KEY, 0)

  ghost function Prices(bids: seq<Bid>): (ps: seq<nat>)
    ensures |ps| == |bids| && forall i: nat :: i < |bids| ==> ps[i] == bids[i].price
  {
    seq(|bids|, (i: nat) requires i < |bids| => bids[i].price)
  }

  lemma PricesAppend(bids: seq<Bid>, b: Bid)
    ensures Prices(bids + [b]) == Prices(bids) + [b.price]
  {
  }

  // ----- Ranks -----

  /** The number of the first `n` bids that come before bid `i`: a higher price, or the same price earlier. */
  ghost function Ahead(bids: seq<Bid>, i: nat, n: nat): nat
    requires i < |bids| && n <= |bids|
  {
    if n == 0 then 0
    else Ahead(bids, i, n - 1)
         + if bids[n - 1].price > bids[i].price || (bids[n - 1].price == bids[i].price && n - 1 < i) then 1 else 0
  }

  ghost function Rank(bids: seq<Bid>, i: nat): nat
    requires i < |bids|
  {
    Ahead(bids, i, |bids|)
  }

  lemma {:induction false} AheadAppend(bids: seq<Bid>, b: Bid, i: nat, n: nat)
    requires i < |bids| && n <= |bids|
    ensures Ahead(bids + [b], i, n) == Ahead(bids, i, n)
  {
    if n > 0 { AheadAppend(bids, b, i, n - 1); }
  }

  lemma RankAppend(bids: seq<Bid>, b: Bid, i: nat)
    requires i < |bids|
    ensures Rank(bids + [b], i) == Rank(bids, i) + if b.price > bids[i].price then 1 else 0
  {
    AheadAppend(bids, b, i, |bids|);
    assert (bids + [b])[|bids|] == b;
  }

  lemma {:induction false} AheadNew(bids: seq<Bid>, b: Bid, n: nat)
    requires n <= |bids|
    ensures Ahead(bids + [b], |bids|, n) == AtLeast(Prices(bids)[..n], b.price)
  {
    if n > 0 {
      AheadNew(bids, b, n - 1);
      assert Prices(bids)[..n][..n - 1] == Prices(bids)[..n - 1];
    }
  }

  lemma RankNew(bids: seq<Bid>, b: Bid)
    ensures Rank(bids + [b], |bids|) == AtLeast(Prices(bids), b.price)
  {
    AheadNew(bids, b, |bids|);
    assert Prices(bids)[..|bids|] == Prices(bids);
  }

  // ----- The book of the best bids -----

  ghost predicate RankedAt(book: seq<Bid>, bids: seq<Bid>, i: nat)
    requires i < |bids|
  {
    Rank(bids, i) < |book| ==> book[Rank(bids, i)] == bids[i]
  }

  /** Every bid ranked within the book stands at its rank; places without a bid are empty. */
  ghost predicate IsBest(book: seq<Bid>, bids: seq<Bid>) {
    && IsTop(Prices(book), Prices(bids))
    && (forall i: nat :: i < |bids| ==> RankedAt(book, bids, i))
    && (forall r: nat :: |bids| <= r < |book| ==> book[r] == NO_BID)
  }

  /** A bid placed behind everything that pays at least as much; the last bid drops out. */
  ghost function Placed(book: seq<Bid>, b: Bid, i: nat): (r: seq<Bid>)
    requires i <= |book|
    ensures |r| == |book|
  {
    (book[..i] + [b] + book[i..])[..|book|]
  }

  /** `i` is the place of a price in the book. */
  ghost predicate PlaceOf(book: seq<Bid>, price: nat, i: nat) {
    i <= |book| && (i == 0 || book[i - 1].price >= price) && forall j: nat :: i <= j < |book| ==> book[j].price < price
  }

  lemma EmptyBest(n: nat, book: seq<Bid>)
    requires |book| == n && forall r: nat :: r < n ==> book[r] == NO_BID
    ensures IsBest(book, [])
  {
    StartTop(Prices(book));
    assert Prices([]) == [];
  }

  lemma PlacedTop(book: seq<Bid>, bids: seq<Bid>, b: Bid, i: nat)
    requires book != [] && IsTop(Prices(book), Prices(bids)) && PlaceOf(book, b.price, i)
    ensures IsTop(Prices(Placed(book, b, i)), Prices(bids + [b]))
  {
    var top := Prices(book);
    var all := top[..i] + [b.price] + top[i..];
    TopStep(top, Prices(bids), b.price, i, all);
    assert all[..|top|] == Prices(Placed(book, b, i));
    PricesAppend(bids, b);
  }

  /** In a descending book the place of a price is the number of prices that reach it. */
  lemma PlaceCount(book: seq<Bid>, price: nat, i: nat)
    requires Descending(Prices(book)) && PlaceOf(book, price, i)
    ensures AtLeast(Prices(book), price) == i
  {
    CountIs(Prices(book), price, i);
  }

  /** The other way round, the number of prices that reach a price is its place. */
  lemma CountPlace(book: seq<Bid>, price: nat)
    requires Descending(Prices(book))
    ensures PlaceOf(book, price, AtLeast(Prices(book), price))
  {
    var ps := Prices(book);
    var i := AtLeast(ps, price);
    if i > 0 {
      AtLeastSplits(ps, price, i - 1);
    }
    forall j: nat | i <= j < |book| ensures book[j].price < price {
      AtLeastSplits(ps, price, j);
    }
  }

  /** A bid that finds a place is one more that reaches its price. */
  lemma PlacedCount(book: seq<Bid>, b: Bid, i: nat)
    requires Descending(Prices(book)) && PlaceOf(book, b.price, i) && i < |book|
    ensures Descending(Prices(Placed(book, b, i))) && AtLeast(Prices(Placed(book, b, i)), b.price) == i + 1
  {
    var ps := Prices(book);
    var all := ps[..i] + [b.price] + ps[i..];
    InsertReaches(ps, b.price, i, all);
    PlaceCount(book, b.price, i);
    PlacedPrices(book, b, i);
  }

  lemma PlacedPrices(book: seq<Bid>, b: Bid, i: nat)
    requires i <= |book|
    ensures var ps := Prices(book);
            Prices(Placed(book, b, i)) == (ps[..i] + [b.price] + ps[i..])[..|ps|]
  {
  }

  lemma PlacedRank(book: seq<Bid>, bids: seq<Bid>, b: Bid, i: nat, k: nat)
    requires IsBest(book, bids) && PlaceOf(book, b.price, i) && b.price > 0 && k <= |bids|
    ensures RankedAt(Placed(book, b, i), bids + [b], k)
  {
    if k < |bids| {
      RankAppend(bids, b, k);
      assert RankedAt(book, bids, k);
      var r := Rank(bids, k);
      if r < |book| {
        PlaceSplits(book, b.price, i, r);
      }
    } else {
      RankNew(bids, b);
      PlaceCount(book, b.price, i);
      assert CountsAgree(Prices(book), Prices(bids), b.price);
    }
  }

  lemma PlaceSplits(book: seq<Bid>, price: nat, i: nat, r: nat)
    requires Descending(Prices(book)) && PlaceOf(book, price, i) && r < |book|
    ensures r < i <==> book[r].price >= price
  {
    if r < i {
      var ps := Prices(book);
      assert r < i - 1 ==> ps[r] >= ps[i - 1];
    }
  }

  lemma PlacedEmpty(book: seq<Bid>, bids: seq<Bid>, b: Bid, i: nat, r: nat)
    requires IsBest(book, bids) && PlaceOf(book, b.price, i) && b.price > 0 && |bids| < r < |book|
    ensures Placed(book, b, i)[r] == NO_BID
  {
    PlaceCount(book, b.price, i);
    assert CountsAgree(Prices(book), Prices(bids), b.price);
    assert book[r - 1] == NO_BID && book[r] == NO_BID;
  }

  /** Placing one more bid keeps the book the best of all bids so far. */
  lemma PlacedBest(book: seq<Bid>, bids: seq<Bid>, b: Bid, i: nat)
    requires book != [] && IsBest(book, bids) && PlaceOf(book, b.price, i) && b.price > 0
    ensures IsBest(Placed(book, b, i), bids + [b])
  {
    PlacedTop(book, bids, b, i);
    forall k: nat | k < |bids| + 1 ensures RankedAt(Placed(book, b, i), bids + [b], k) {
      PlacedRank(book, bids, b, i, k);
    }
    forall r: nat | |bids| + 1 <= r < |book| ensures Placed(book, b, i)[r] == NO_BID {
      PlacedEmpty(book, bids, b, i, r);
    }
  }

  // ----- Money -----

  /** What `k` has put into some bids. */
  ghost function Paid(bids: seq<Bid>, k: PublicKey): nat {
    if bids == [] then 0
    else Paid(bids[..|bids| - 1], k) + if bids[|bids| - 1].key == k then bids[|bids| - 1].price else 0
  }

  ghost function Total(bids: seq<Bid>): nat {
    if bids == [] then 0 else Total(bids[..|bids| - 1]) + bids[|bids| - 1].price
  }

  lemma {:induction false} PaidConcat(a: seq<Bid>, b: seq<Bid>, k: PublicKey)
    ensures Paid(a + b, k) == Paid(a, k) + Paid(b, k) && Total(a + b) == Total(a) + Total(b)
  {
    if b == [] {
      assert a + b == a;
    } else {
      assert (a + b)[..|a + b| - 1] == a + b[..|b| - 1];
      PaidConcat(a, b[..|b| - 1], k);
    }
  }

  ghost function PaidBy(b: Bid, k: PublicKey): nat {
    if b.key == k then b.price else 0
  }

  lemma PaidOne(b: Bid, k: PublicKey)
    ensures Paid([b], k) == PaidBy(b, k) && Total([b]) == b.price
  {
    assert [b][..0] == [];
  }

  /** The bid that drops out: the new one itself if it finds no place, the last of the book otherwise. */
  ghost function Dropped(book: seq<Bid>, b: Bid, i: nat): Bid
    requires i <= |book|
  {
    if i == |book| then b else book[|book| - 1]
  }

  lemma InsertedMoney(book: seq<Bid>, b: Bid, i: nat, k: PublicKey)
    requires i <= |book|
    ensures Paid(book[..i] + [b] + book[i..], k) == Paid(book, k) + PaidBy(b, k)
    ensures Total(book[..i] + [b] + book[i..]) == Total(book) + b.price
  {
    var x, y := book[..i], book[i..];
    assert book == x + y;
    PaidConcat(x, y, k);
    PaidConcat(x + [b], y, k);
    PaidConcat(x, [b], k);
    PaidOne(b, k);
  }

  /** Money in equals money out, for every bidder and in all. */
  lemma PlacedMoney(book: seq<Bid>, b: Bid, i: nat, k: PublicKey)
    requires i <= |book|
    ensures Paid(Placed(book, b, i), k) + PaidBy(Dropped(book, b, i), k) == Paid(book, k) + PaidBy(b, k)
    ensures Total(Placed(book, b, i)) + Dropped(book, b, i).price == Total(book) + b.price
  {
    InsertedMoney(book, b, i, k);
    PlacedAndDropped(book, b, i);
    PaidConcat(Placed(book, b, i), [Dropped(book, b, i)], k);
    PaidOne(Dropped(book, b, i), k);
  }

  lemma PlacedAndDropped(book: seq<Bid>, b: Bid, i: nat)
    requires i <= |book|
    ensures book[..i] + [b] + book[i..] == Placed(book, b, i) + [Dropped(book, b, i)]
  {
  }

  // ----- The book is determined by the bids -----

  /** A bid comes before all prices below its own and behind all above. */
  lemma {:induction false} AheadCount(bids: seq<Bid>, i: nat, n: nat, v: nat)
    requires i < |bids| && n <= |bids|
    ensures bids[i].price < v ==> AtLeast(Prices(bids)[..n], v) <= Ahead(bids, i, n)
    ensures bids[i].price >= v ==> Ahead(bids, i, n) + (if i < n then 1 else 0) <= AtLeast(Prices(bids)[..n], v)
  {
    if n > 0 {
      AheadCount(bids, i, n - 1, v);
      assert Prices(bids)[..n][..n - 1] == Prices(bids)[..n - 1];
    }
  }

  lemma RankCount(bids: seq<Bid>, i: nat, v: nat)
    requires i < |bids|
    ensures Rank(bids, i) < AtLeast(Prices(bids), v) <==> bids[i].price >= v
  {
    AheadCount(bids, i, |bids|, v);
    assert Prices(bids)[..|bids|] == Prices(bids);
  }

  /** Every place up to the number of bids is the rank of some bid. */
  lemma {:induction false} RankOnto(bids: seq<Bid>, r: nat) returns (i: nat)
    requires r < |bids|
    ensures i < |bids| && Rank(bids, i) == r
  {
    var n := |bids| - 1;
    var rest, b := bids[..n], bids[n];
    assert bids == rest + [b];
    RankNew(rest, b);
    var p := AtLeast(Prices(rest), b.price);
    if r == p {
      return n;
    }
    i := RankOnto(rest, if r < p then r else r - 1);
    RankCount(rest, i, b.price);
    RankAppend(rest, b, i);
  }

  lemma BestUnique(book: seq<Bid>, book': seq<Bid>, bids: seq<Bid>)
    requires |book| == |book'| && IsBest(book, bids) && IsBest(book', bids)
    ensures book == book'
  {
    forall r: nat | r < |book| ensures book[r] == book'[r] {
      if r < |bids| {
        var i := RankOnto(bids, r);
        assert RankedAt(book, bids, i) && RankedAt(book', bids, i);
      }
    }
  }
}
