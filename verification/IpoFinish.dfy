/** The end of a contract IPO: the final price, refunds, and one share per place in the book. */
module IpoFinish {
  import opened AssetTable
  import opened AssetMoves
  import opened AssetIndexLists
  import opened AssetUniverse
  import opened TopK
  import opened OrderBook
  import opened IpoAuction

  // ----- Refunds -----

  /** What a bid is owed when the final price is `p`. */
  ghost function Refund(b: Bid, p: nat): Bid {
    Bid(b.key, if b.price > p then b.price - p else 0)
  }

  ghost function Refunds(book: seq<Bid>, p: nat): (rs: seq<Bid>)
    ensures |rs| == |book| && forall i: nat :: i < |book| ==> rs[i] == Refund(book[i], p)
  {
    seq(|book|, (i: nat) requires i < |book| => Refund(book[i], p))
  }

  /** The number of places `k` holds. */
  ghost function Places(book: seq<Bid>, k: PublicKey): nat {
    if book == [] then 0 else Places(book[..|book| - 1], k) + if book[|book| - 1].key == k then 1 else 0
  }

  lemma Once(p: nat, c: nat)
    ensures p * (c + 1) == p * c + p
  {
  }

  /** Refund and final price together are what was paid, for every bidder and in all. */
  lemma {:induction false} RefundMoney(book: seq<Bid>, p: nat, k: PublicKey)
    requires forall i: nat :: i < |book| ==> book[i].price >= p
    ensures Paid(Refunds(book, p), k) + p * Places(book, k) == Paid(book, k)
    ensures Total(Refunds(book, p)) + p * |book| == Total(book)
  {
    if book != [] {
      var n := |book| - 1;
      RefundMoney(book[..n], p, k);
      assert Refunds(book, p)[..n] == Refunds(book[..n], p);
      Once(p, Places(book[..n], k));
      Once(p, n);
    }
  }

  lemma {:induction false} RefundsTotal(book: seq<Bid>, p: nat)
    ensures Total(Refunds(book, p)) <= Total(book)
  {
    if book != [] {
      var n := |book| - 1;
      RefundsTotal(book[..n], p);
      assert Refunds(book, p)[..n] == Refunds(book[..n], p);
    }
  }

  lemma {:induction false} PrefixTotal(bids: seq<Bid>, n: nat)
    requires n <= |bids|
    ensures Total(bids[..n]) <= Total(bids)
  {
    if n < |bids| {
      var m := |bids| - 1;
      assert bids[..m][..n] == bids[..n];
      PrefixTotal(bids[..m], n);
    } else {
      assert bids[..n] == bids;
    }
  }

  /** Refunds up to a place stay within the money of the book. */
  lemma RefundWithin(book: seq<Bid>, p: nat, n: nat)
    requires n < |book|
    ensures Total(Refunds(book, p)[..n]) + Refund(book[n], p).price <= Total(book)
  {
    var rs := Refunds(book, p);
    RefundsTotal(book, p);
    PrefixTotal(rs, n + 1);
    assert rs[..n + 1][..n] == rs[..n];
  }

  /** Two lists owe every bidder the same. */
  ghost predicate SameDebts(table: seq<Bid>, list: seq<Bid>) {
    (forall k: PublicKey :: SameDebt(table, list, k)) && Total(table) == Total(list)
  }

  ghost predicate SameDebt(table: seq<Bid>, list: seq<Bid>, k: PublicKey) {
    Paid(table, k) == Paid(list, k)
  }

  lemma DebtStep(table: seq<Bid>, table': seq<Bid>, list: seq<Bid>, n: nat)
    requires n < |list| && SameDebts(table, list[..n])
    requires Owes(table, table', list[n].key, list[n].price) || (list[n].price == 0 && table' == table)
    ensures SameDebts(table', list[..n + 1])
  {
    var list' := list[..n + 1];
    assert list'[..n] == list[..n];
    forall k: PublicKey ensures SameDebt(table', list', k) {
      assert SameDebt(table, list[..n], k);
      assert Owes(table, table', list[n].key, list[n].price) ==> OwesAt(table, table', list[n].key, list[n].price, k);
    }
  }

  // ----- Shares -----

  /** A share of the contract held by `k`, managed by `manager`. */
  ghost function Share(name: nat, manager: nat, k: PublicKey): Holding {
    Holding(ZERO_KEY, name, k, manager, k, manager)
  }

  /** One share for each place, taken from the issuer. */
  ghost function Handed(l: map<Holding, int>, name: nat, manager: nat, book: seq<Bid>): (l': map<Holding, int>)
    requires Share(name, manager, ZERO_KEY) in l
    ensures Share(name, manager, ZERO_KEY) in l'
  {
    if book == [] then l
    else MoveHolding(Handed(l, name, manager, book[..|book| - 1]), Share(name, manager, ZERO_KEY),
                     Share(name, manager, book[|book| - 1].key), 1)
  }

  ghost function Shares(l: map<Holding, int>, h: Holding): int {
    if h in l then l[h] else 0
  }

  ghost function Bidders(book: seq<Bid>): set<PublicKey> {
    set i: nat | i < |book| :: book[i].key
  }

  /** Each bidder has one share more per place, the issuer as many less, and nothing else changes. */
  lemma {:induction false} HandedCounts(l: map<Holding, int>, name: nat, manager: nat, book: seq<Bid>, k: PublicKey,
                                        h: Holding)
    requires Share(name, manager, ZERO_KEY) in l && forall i: nat :: i < |book| ==> book[i].key != ZERO_KEY
    ensures var l' := Handed(l, name, manager, book);
            && (k != ZERO_KEY ==>
                Shares(l', Share(name, manager, k)) == Shares(l, Share(name, manager, k)) + Places(book, k))
            && l'[Share(name, manager, ZERO_KEY)] == l[Share(name, manager, ZERO_KEY)] - |book|
            && (h.issuer != ZERO_KEY || h.name != name ==> Shares(l', h) == Shares(l, h))
  {
    if book != [] {
      HandedCounts(l, name, manager, book[..|book| - 1], k, h);
    }
  }

  /** A bidder who was served has a holding. */
  lemma {:induction false} HandedHas(l: map<Holding, int>, name: nat, manager: nat, book: seq<Bid>, k: PublicKey)
    requires Share(name, manager, ZERO_KEY) in l && k in Bidders(book)
    ensures Share(name, manager, k) in Handed(l, name, manager, book)
  {
    var n := |book| - 1;
    if book[n].key != k {
      var i: nat :| i < |book| && book[i].key == k;
      assert book[..n][i].key == k;
      HandedHas(l, name, manager, book[..n], k);
    }
  }

  /** A ledger has no holding of an asset that could still be issued. */
  lemma NoHoldings(t: Table, name: nat, h: Holding)
    requires Shape(t) && Issuable(t, ZERO_KEY, name) && h in Ledger(t)
    ensures h.issuer != ZERO_KEY || h.name != name
  {
    var i := LedgerFrom(t, h);
    assert LinkedAt(t, i);
    assert LinkedAt(t, t[i].ownership);
    var a := t[t[i].ownership].issuance;
    assert !SameIdentity(t[a], Issuance(ZERO_KEY, name, 0, 0));
  }

  /** A move takes a free slot only if the destination has no record yet. */
  lemma MoveKeepsRoom(t: Table, src: nat, dst: nat, r: Record, n: int)
    requires Shape(t) && CanMove(t, src, dst, r)
    ensures |FreeSlots(MoveTo(t, src, dst, r, n))| >= |FreeSlots(t)| - if t[dst].Empty? then 1 else 0
  {
    var t' := MoveTo(t, src, dst, r, n);
    var f, f' := FreeSlots(t), FreeSlots(t');
    assert f - {dst} <= f' by {
      forall i: nat | i in f - {dst} ensures i in f' {
        MoveRecords(t, src, dst, r, n, i);
      }
    }
    Subset(f - {dst}, f');
    assert !t[dst].Empty? ==> f - {dst} == f;
  }

  lemma Subset(a: set<nat>, b: set<nat>)
    requires a <= b
    ensures |a| <= |b|
  {
    assert b == a + (b - a);
  }

  /** A move to another key leaves the source with less. */
  lemma MoveLeaves(t: Table, src: nat, dst: nat, r: Record, n: int)
    requires Shape(t) && CanMove(t, src, dst, r) && r.key != t[src].key
    ensures MoveTo(t, src, dst, r, n)[src] == WithShares(t[src], SharesOf(t[src]) - n)
  {
    assert src != dst;
    MoveRecords(t, src, dst, r, n, src);
  }

  /** The issuer's records while `left` shares are still to be handed out. */
  ghost predicate Handing(t: Table, so: nat, sp: nat, name: nat, manager: nat, left: nat) {
    && Good(t) && so < |t| && sp < |t| && t[so].Ownership? && t[sp].Possession? && t[sp].ownership == so
    && t[so].key == t[sp].key == ZERO_KEY && t[so].manager == t[sp].manager == manager
    && t[so].shares == t[sp].shares == left
    && HoldingOf(t, sp) == Share(name, manager, ZERO_KEY)
  }

  lemma HandOne(t: Table, t': Table, so: nat, sp: nat, ro: Record, do: nat, rp: Record, dp: nat, name: nat,
                manager: nat, left: nat)
    requires Handing(t, so, sp, name, manager, left) && Transferred(t, t', so, sp, ro, do, rp, dp, 1)
    requires ro.key != ZERO_KEY && rp.key != ZERO_KEY && left > 0
    ensures Handing(t', so, sp, name, manager, left - 1)
  {
    TransferGood(t, t', so, sp, ro, do, rp, dp, 1);
    TransferShape(t, t', so, sp, ro, do, rp, dp, 1);
    HoldingKept(t, t', sp);
    SourceLess(t, t', so, sp, ro, do, rp, dp);
  }

  lemma SourceLess(t: Table, t': Table, so: nat, sp: nat, ro: Record, do: nat, rp: Record, dp: nat)
    requires Good(t) && Transferred(t, t', so, sp, ro, do, rp, dp, 1) && ro.key != t[so].key && rp.key != t[sp].key
    ensures t'[so] == WithShares(t[so], t[so].shares - 1) && t'[sp] == WithShares(t[sp], t[sp].shares - 1)
  {
    var t3 := MoveTo(t, so, do, ro, 1);
    MoveShape(t, so, do, ro, 1);
    MoveLeaves(t, so, do, ro, 1);
    MoveRecords(t, so, do, ro, 1, sp);
    MoveLeaves(t3, sp, dp, rp, 1);
    MoveRecords(t3, sp, dp, rp, 1, so);
  }

  /** The issue puts all shares with the issuer. */
  lemma IssueStarts(t: Table, t': Table, name: nat, unit: nat, i: nat, manager: nat, n: nat, j: nat, k: nat)
    requires Good(t) && Good(t') && Issued(t, t', Issuance(ZERO_KEY, name, 0, unit), i, manager, n, j, k)
    ensures Handing(t', j, k, name, manager, n) && |FreeSlots(t')| == |FreeSlots(t)| - 3
    ensures LinkedAt(t', j) && t'[t'[j].issuance] == Issuance(ZERO_KEY, name, 0, unit)
  {
    var a := Issuance(ZERO_KEY, name, 0, unit);
    var t1 := t[i := a];
    var t2 := t1[j := Ownership(ZERO_KEY, manager, i, n)];
    InsertFree(t, i, a);
    InsertFree(t1, j, t2[j]);
    InsertFree(t2, k, t'[k]);
    assert LinkedAt(t', k) && LinkedAt(t', j);
  }

  /** There is room for the records of the issue and for two of every bidder, if the asset is going to be issued. */
  ghost predicate Room(t: Table, name: nat, book: seq<Bid>) {
    book != [] && book[|book| - 1].price > 0 && Issuable(t, ZERO_KEY, name) ==>
      |FreeSlots(t)| >= 3 + 2 * |Bidders(book)|
  }

  /** The records of a bidder who holds a share already. */
  lemma ServedPath(t: Table, so: nat, sp: nat, name: nat, manager: nat, left: nat, key: PublicKey)
    returns (o: nat, p: nat)
    requires Handing(t, so, sp, name, manager, left) && Share(name, manager, key) in Ledger(t)
    ensures o < |t| && p < |t| && SameIdentity(t[o], OwnerGoal(t, so, key, manager))
    ensures SameIdentity(t[p], Possession(key, manager, o, 0))
  {
    var a;
    a, o, p := HeldHasPath(t, Share(name, manager, key));
    assert LinkedAt(t, sp) && LinkedAt(t, so);
    MatchUnique(t, TheIssuance(ZERO_KEY, name), a, t[so].issuance);
  }

  /** Serving such a bidder takes no slot. */
  lemma ServedRoom(t: Table, t': Table, so: nat, sp: nat, do: nat, dp: nat, name: nat, manager: nat, left: nat,
                   key: PublicKey)
    requires Handing(t, so, sp, name, manager, left) && Share(name, manager, key) in Ledger(t)
    requires Transferred(t, t', so, sp, OwnerGoal(t, so, key, manager), do, Possession(key, manager, do, 0), dp, 1)
    ensures |FreeSlots(t')| >= |FreeSlots(t)|
  {
    var ro, rp := OwnerGoal(t, so, key, manager), Possession(key, manager, do, 0);
    var t3 := MoveTo(t, so, do, ro, 1);
    var o, p := ServedPath(t, so, sp, name, manager, left, key);
    assert !t[do].Empty?;
    MatchUnique(t, TheRecord(ro), o, do);
    MoveShape(t, so, do, ro, 1);
    MoveRecords(t, so, do, ro, 1, p);
    assert SameIdentity(t3[p], rp) && !t3[dp].Empty?;
    MoveKeepsRoom(t, so, do, ro, 1);
    MoveKeepsRoom(t3, sp, dp, rp, 1);
  }

  lemma TransferRoom(t: Table, t': Table, so: nat, sp: nat, ro: Record, do: nat, rp: Record, dp: nat)
    requires Good(t) && Transferred(t, t', so, sp, ro, do, rp, dp, 1)
    ensures |FreeSlots(t')| >= |FreeSlots(t)| - 2
  {
    MoveShape(t, so, do, ro, 1);
    MoveKeepsRoom(t, so, do, ro, 1);
    MoveKeepsRoom(MoveTo(t, so, do, ro, 1), sp, dp, rp, 1);
  }

  /** The final price for a last price in the book. */
  ghost function FinalPrice(t: Table, name: nat, price: nat): nat {
    if Issuable(t, ZERO_KEY, name) then price else 0
  }

  // ----- finishIPOs, for one contract -----

  /** The bidders of the first `n` places hold shares, and there is room for the others. */
  ghost predicate RoomLeft(t: Table, name: nat, manager: nat, book: seq<Bid>, n: nat) {
    && Shape(t) && n <= |book| && |FreeSlots(t)| >= 2 * |Bidders(book) - Bidders(book[..n])|
    && forall k: PublicKey :: k in Bidders(book[..n]) ==> Share(name, manager, k) in Ledger(t)
  }

  lemma NextBidder(book: seq<Bid>, n: nat)
    requires n < |book|
    ensures Bidders(book[..n + 1]) == Bidders(book[..n]) + {book[n].key} && book[n].key in Bidders(book)
  {
    var b, b' := Bidders(book[..n]), Bidders(book[..n + 1]);
    forall k: PublicKey | k in b ensures k in b' {
      var i: nat :| i < n && book[..n][i].key == k;
      assert book[..n + 1][i].key == k;
    }
    assert book[..n + 1][n].key == book[n].key;
    forall k: PublicKey | k in b' && k != book[n].key ensures k in b {
      var i: nat :| i < n + 1 && book[..n + 1][i].key == k;
      assert book[..n][i].key == k;
    }
  }

  lemma LeftBidders(all: set<PublicKey>, served: set<PublicKey>, k: PublicKey)
    requires k in all
    ensures k in served ==> all - (served + {k}) == all - served
    ensures k !in served ==> |all - served| == |all - (served + {k})| + 1
  {
    assert k !in served ==> all - served == (all - (served + {k})) + {k};
  }

  /** Room to serve place `n`. */
  lemma RoomToServe(t: Table, so: nat, sp: nat, name: nat, manager: nat, left: nat, book: seq<Bid>, n: nat)
    requires Handing(t, so, sp, name, manager, left) && n < |book| && RoomLeft(t, name, manager, book, n)
    ensures RoomFor(t, OwnerGoal(t, so, book[n].key, manager), book[n].key, manager)
  {
    var key := book[n].key;
    NextBidder(book, n);
    LeftBidders(Bidders(book), Bidders(book[..n]), key);
    if key in Bidders(book[..n]) {
      var o, p := ServedPath(t, so, sp, name, manager, left, key);
      assert Stops(TheRecord(Possession(key, manager, o, 0)), t[p]);
    }
  }

  /** Hands one share to `key`. */
  method HandOut<D(!new)>(u: Universe<D>, so: nat, sp: nat, key: PublicKey, ghost name: nat, ghost manager: nat,
                          ghost left: nat)
    returns (do: nat, dp: nat)
    requires u.Valid() && Handing(u.assets[..], so, sp, name, manager, left) && left > 0 && key != ZERO_KEY
    requires RoomFor(u.assets[..], OwnerGoal(u.assets[..], so, key, manager), key, manager)
    modifies u.assets, u.flags, u.lists.first, u.lists.next
    ensures u.Valid() && Handing(u.assets[..], so, sp, name, manager, left - 1)
    ensures Share(name, manager, ZERO_KEY) in Ledger(old(u.assets[..]))
    ensures Ledger(u.assets[..])
              == MoveHolding(Ledger(old(u.assets[..])), Share(name, manager, ZERO_KEY), Share(name, manager, key), 1)
    ensures var t := old(u.assets[..]);
            Transferred(t, u.assets[..], so, sp, OwnerGoal(t, so, key, manager), do, Possession(key, manager, do, 0),
                        dp, 1)
  {
    ghost var t := u.assets[..];
    assert LinkedAt(t, sp) && LinkedAt(t, so);
    var ok;
    ok, do, dp := u.TransferShareOwnershipAndPossession(so, sp, key, 1);
    HandOne(t, u.assets[..], so, sp, OwnerGoal(t, so, key, manager), do, Possession(key, manager, do, 0), dp, name,
            manager, left);
  }

  /** The auction and the universe share no storage. */
  ghost predicate Apart<D(!new)>(a: Auction, u: Universe<D>) {
    && a.prices as object != u.lists.first && a.prices as object != u.lists.next
    && a.releasedAmounts as object != u.lists.first && a.releasedAmounts as object != u.lists.next
    && a.prices as object != u.digests && a.releasedAmounts as object != u.digests
    && a.publicKeys as object != u.digests && a.releasedPublicKeys as object != u.digests
  }

  /** The refunds of places `0` to `n - 1` are in the table. */
  ghost predicate Refunding(a: Auction, book: seq<Bid>, p: nat, n: nat)
    reads a, a.publicKeys, a.prices, a.releasedPublicKeys, a.releasedAmounts
  {
    && a.Shape() && a.Book() == book && n <= |book| && a.numberOfReleasedEntities <= n
    && SameDebts(a.Released(), Refunds(book, p)[..n])
  }

  /** The refund of place `i`. */
  method RefundPlace(a: Auction, ghost book: seq<Bid>, p: nat, i: nat)
    requires Refunding(a, book, p, i) && i < |book| && Total(book) <= MAX_AMOUNT
    modifies a`numberOfReleasedEntities, a.releasedPublicKeys, a.releasedAmounts
    ensures Refunding(a, book, p, i + 1)
  {
    ghost var table := a.Released();
    assert Refunds(book, p)[i] == Refund(Bid(a.publicKeys[i], a.prices[i]), p);
    RefundWithin(book, p, i);
    if a.prices[i] > p {
      a.Release(a.publicKeys[i], a.prices[i] - p);
    }
    DebtStep(table, a.Released(), Refunds(book, p), i);
  }

  /** Before any place is dealt with. */
  method StartRefunds(a: Auction, ghost p: nat)
    requires a.Shape()
    modifies a`numberOfReleasedEntities
    ensures Refunding(a, a.Book(), p, 0)
  {
    a.numberOfReleasedEntities := 0;
    assert a.Released() == [] && Refunds(a.Book(), p)[..0] == [];
    forall k: PublicKey ensures SameDebt(a.Released(), Refunds(a.Book(), p)[..0], k) {
    }
  }

  /** Shares of the first `n` places are handed out. */
  ghost predicate HandedOut(t: Table, l0: map<Holding, int>, so: nat, sp: nat, name: nat, manager: nat,
                            book: seq<Bid>, n: nat)
  {
    && n <= |book| && Share(name, manager, ZERO_KEY) in l0
    && Handing(t, so, sp, name, manager, |book| - n)
    && Ledger(t) == Handed(l0, name, manager, book[..n]) && RoomLeft(t, name, manager, book, n)
  }

  lemma {:induction false} HandedNext(l0: map<Holding, int>, name: nat, manager: nat, book: seq<Bid>, n: nat)
    requires n < |book| && Share(name, manager, ZERO_KEY) in l0
    ensures Handed(l0, name, manager, book[..n + 1])
         == MoveHolding(Handed(l0, name, manager, book[..n]), Share(name, manager, ZERO_KEY),
                        Share(name, manager, book[n].key), 1)
  {
    assert book[..n + 1][..n] == book[..n];
  }

  /** Serving place `n` leaves room for the others. */
  lemma RoomNext(t: Table, t': Table, l0: map<Holding, int>, so: nat, sp: nat, do: nat, dp: nat, name: nat,
                 manager: nat, left: nat, book: seq<Bid>, n: nat)
    requires n < |book| && Handing(t, so, sp, name, manager, left) && RoomLeft(t, name, manager, book, n)
    requires var key := book[n].key;
             Transferred(t, t', so, sp, OwnerGoal(t, so, key, manager), do, Possession(key, manager, do, 0), dp, 1)
    requires Share(name, manager, ZERO_KEY) in l0 && Shape(t') && Ledger(t') == Handed(l0, name, manager, book[..n + 1])
    ensures RoomLeft(t', name, manager, book, n + 1)
  {
    var key := book[n].key;
    NextBidder(book, n);
    LeftBidders(Bidders(book), Bidders(book[..n]), key);
    if key in Bidders(book[..n]) {
      ServedRoom(t, t', so, sp, do, dp, name, manager, left, key);
    } else {
      TransferRoom(t, t', so, sp, OwnerGoal(t, so, key, manager), do, Possession(key, manager, do, 0), dp);
    }
    forall k: PublicKey | k in Bidders(book[..n + 1]) ensures Share(name, manager, k) in Ledger(t') {
      HandedHas(l0, name, manager, book[..n + 1], k);
    }
  }

  /** Hands out the share of place `n`. */
  method HandNext<D(!new)>(u: Universe<D>, so: nat, sp: nat, key: PublicKey, ghost l0: map<Holding, int>,
                           ghost name: nat, ghost manager: nat, ghost book: seq<Bid>, ghost n: nat)
    requires u.Valid() && HandedOut(u.assets[..], l0, so, sp, name, manager, book, n) && n < |book|
    requires key == book[n].key != ZERO_KEY
    modifies u.assets, u.flags, u.lists.first, u.lists.next
    ensures u.Valid() && HandedOut(u.assets[..], l0, so, sp, name, manager, book, n + 1)
  {
    ghost var t := u.assets[..];
    RoomToServe(t, so, sp, name, manager, |book| - n, book, n);
    var do, dp := HandOut(u, so, sp, key, name, manager, |book| - n);
    HandedNext(l0, name, manager, book, n);
    RoomNext(t, u.assets[..], l0, so, sp, do, dp, name, manager, |book| - n, book, n);
  }

  lemma StartHanding(t: Table, so: nat, sp: nat, name: nat, manager: nat, book: seq<Bid>)
    requires Handing(t, so, sp, name, manager, |book|) && |FreeSlots(t)| >= 2 * |Bidders(book)|
    ensures HandedOut(t, Ledger(t), so, sp, name, manager, book, 0)
  {
    LedgerAt(t, sp);
    assert book[..0] == [] && Bidders(book[..0]) == {} && Bidders(book) - {} == Bidders(book);
  }

  /** The table after `n` places: untouched without a final price, otherwise with their shares handed out. */
  ghost predicate Dealt(t0: Table, t: Table, so: nat, sp: nat, name: nat, manager: nat, book: seq<Bid>, p: nat,
                        n: nat)
  {
    if p == 0 then t == t0
    else Shape(t0) && HandedOut(t, Ledger(t0), so, sp, name, manager, book, n) && Bids(book)
  }

  /** The first `n` places have been dealt with. */
  ghost predicate Midway<D(!new)>(a: Auction, u: Universe<D>, t0: Table, so: nat, sp: nat, name: nat, manager: nat,
                                  book: seq<Bid>, p: nat, n: nat)
    reads a, a.publicKeys, a.prices, a.releasedPublicKeys, a.releasedAmounts
    reads u, u.assets, u.digests, u.flags, u.lists, u.lists.first, u.lists.next
  {
    && Apart(a, u) && u.Valid() && Refunding(a, book, p, n)
    && Dealt(t0, u.assets[..], so, sp, name, manager, book, p, n)
  }

  /** Every place has a bid. */
  ghost predicate Bids(book: seq<Bid>) {
    forall i: nat :: i < |book| ==> book[i].key != ZERO_KEY
  }

  /** A refund does not touch the universe. */
  method RefundApart<D(!new)>(a: Auction, ghost u: Universe<D>, ghost book: seq<Bid>, p: nat, i: nat)
    requires Refunding(a, book, p, i) && i < |book| && Total(book) <= MAX_AMOUNT && Apart(a, u) && u.Valid()
    modifies a`numberOfReleasedEntities, a.releasedPublicKeys, a.releasedAmounts
    ensures Refunding(a, book, p, i + 1) && u.Valid() && u.assets[..] == old(u.assets[..])
  {
    RefundPlace(a, book, p, i);
  }

  /** A share handed out does not touch the auction. */
  method HandApart<D(!new)>(ghost a: Auction, u: Universe<D>, so: nat, sp: nat, key: PublicKey, ghost p: nat,
                            ghost l0: map<Holding, int>, ghost name: nat, ghost manager: nat, ghost book: seq<Bid>,
                            ghost n: nat)
    requires Refunding(a, book, p, n + 1) && Apart(a, u) && u.Valid() && n < |book| && key == book[n].key != ZERO_KEY
    requires HandedOut(u.assets[..], l0, so, sp, name, manager, book, n)
    modifies u.assets, u.flags, u.lists.first, u.lists.next
    ensures Refunding(a, book, p, n + 1) && u.Valid()
    ensures HandedOut(u.assets[..], l0, so, sp, name, manager, book, n + 1)
  {
    HandNext(u, so, sp, key, l0, name, manager, book, n);
  }

  /** The refund of place `i` and, for a positive final price, its share. */
  method DealPlace<D(!new)>(a: Auction, u: Universe<D>, p: nat, so: nat, sp: nat, i: nat, ghost t0: Table,
                            ghost book: seq<Bid>, ghost name: nat, ghost manager: nat)
    requires Midway(a, u, t0, so, sp, name, manager, book, p, i) && i < |book| && Total(book) <= MAX_AMOUNT
    modifies a`numberOfReleasedEntities, a.releasedPublicKeys, a.releasedAmounts, u.assets, u.flags, u.lists.first,
             u.lists.next
    ensures Midway(a, u, t0, so, sp, name, manager, book, p, i + 1)
  {
    RefundApart(a, u, book, p, i);
    if p > 0 {
      assert book[i] == Bid(a.publicKeys[i], a.prices[i]);
      HandApart(a, u, so, sp, a.publicKeys[i], p, Ledger(t0), name, manager, book, i);
    }
  }

  lemma StartDeal(t: Table, so: nat, sp: nat, name: nat, manager: nat, book: seq<Bid>, p: nat)
    requires p > 0 ==> Handing(t, so, sp, name, manager, |book|) && |FreeSlots(t)| >= 2 * |Bidders(book)| && Bids(book)
    ensures Dealt(t, t, so, sp, name, manager, book, p, 0)
  {
    if p > 0 {
      StartHanding(t, so, sp, name, manager, book);
    }
  }

  /** Refunds and, for a positive final price, one share for every place. */
  method DealPlaces<D(!new)>(a: Auction, u: Universe<D>, p: nat, so: nat, sp: nat, ghost t0: Table,
                             ghost book: seq<Bid>, ghost name: nat, ghost manager: nat)
    requires Midway(a, u, t0, so, sp, name, manager, book, p, 0) && Total(book) <= MAX_AMOUNT
    modifies a`numberOfReleasedEntities, a.releasedPublicKeys, a.releasedAmounts, u.assets, u.flags, u.lists.first,
             u.lists.next
    ensures Midway(a, u, t0, so, sp, name, manager, book, p, |book|)
  {
    for i := 0 to a.prices.Length
      invariant Midway(a, u, t0, so, sp, name, manager, book, p, i)
    {
      DealPlace(a, u, p, so, sp, i, t0, book, name, manager);
    }
  }

  lemma BookKeys(book: seq<Bid>, p: nat)
    requires Named(book) && p > 0 && forall i: nat :: i < |book| ==> book[i].price >= p
    ensures Bids(book)
  {
  }

  /** What the shares are worth to the bidders: one per place, and none left with the issuer. */
  ghost predicate Distributed(t: Table, t': Table, name: nat, manager: nat, book: seq<Bid>) {
    && Shape(t) && Shape(t')
    && (forall k: PublicKey :: k != ZERO_KEY ==> Shares(Ledger(t'), Share(name, manager, k)) == Places(book, k))
    && Shares(Ledger(t'), Share(name, manager, ZERO_KEY)) == 0
    && (forall h: Holding :: h.issuer != ZERO_KEY || h.name != name ==> Shares(Ledger(t'), h) == Shares(Ledger(t), h))
  }

  lemma DistributionDone(t: Table, l1: map<Holding, int>, t': Table, so: nat, sp: nat, name: nat, manager: nat,
                         book: seq<Bid>)
    requires Shape(t) && Issuable(t, ZERO_KEY, name) && l1 == Ledger(t)[Share(name, manager, ZERO_KEY) := |book|]
    requires Bids(book)
    requires HandedOut(t', l1, so, sp, name, manager, book, |book|)
    ensures Distributed(t, t', name, manager, book)
  {
    assert book[..|book|] == book;
    forall k: PublicKey | k != ZERO_KEY ensures Shares(Ledger(t'), Share(name, manager, k)) == Places(book, k) {
      HandedCounts(l1, name, manager, book, k, Share(name, manager, k));
      if Share(name, manager, k) in Ledger(t) { NoHoldings(t, name, Share(name, manager, k)); }
    }
    forall h: Holding | h.issuer != ZERO_KEY || h.name != name ensures Shares(Ledger(t'), h) == Shares(Ledger(t), h) {
      HandedCounts(l1, name, manager, book, ZERO_KEY, h);
    }
    HandedCounts(l1, name, manager, book, ZERO_KEY, Share(name, manager, ZERO_KEY));
  }

  /** Every bidder has paid the final price for each place and got back the rest. */
  ghost predicate Settled(energy0: map<PublicKey, nat>, energy: map<PublicKey, nat>, book: seq<Bid>, p: nat) {
    forall k: PublicKey :: k != ZERO_KEY ==>
      Balance(energy, k) + p * Places(book, k) == Balance(energy0, k) + Paid(book, k)
  }

  lemma {:induction false} FinishMoney(book: seq<Bid>, p: nat, table: seq<Bid>, energy0: map<PublicKey, nat>,
                                       energy: map<PublicKey, nat>)
    requires forall i: nat :: i < |book| ==> book[i].price >= p
    requires SameDebts(table, Refunds(book, p)[..|book|]) && Credited(energy0, energy, table)
    ensures Settled(energy0, energy, book, p) && Total(table) + p * |book| == Total(book)
  {
    var rs := Refunds(book, p);
    assert rs[..|book|] == rs;
    RefundMoney(book, p, ZERO_KEY);
    forall k: PublicKey | k != ZERO_KEY
      ensures Balance(energy, k) + p * Places(book, k) == Balance(energy0, k) + Paid(book, k)
    {
      assert CreditedAt(energy0, energy, table, k) && SameDebt(table, rs, k);
      RefundMoney(book, p, k);
    }
  }

  lemma LastIsLeast(book: seq<Bid>, bids: seq<Bid>)
    requires book != [] && IsBest(book, bids)
    ensures forall i: nat :: i < |book| ==> book[i].price >= book[|book| - 1].price
  {
    var ps := Prices(book);
    assert forall i: nat :: i < |book| - 1 ==> ps[i] >= ps[|book| - 1];
  }

  /** The final price: the last price of the book if the asset can be issued, which is then done. */
  method DecidePrice<D(!new)>(a: Auction, u: Universe<D>, name: nat, unit: nat, manager: nat)
    returns (p: nat, so: nat, sp: nat)
    requires a.Sizes() && u.Valid() && Apart(a, u) && a.prices.Length <= MAX_INT64
    requires a.prices[a.prices.Length - 1] > 0 && Issuable(u.assets[..], ZERO_KEY, name) ==>
               |FreeSlots(u.assets[..])| >= 3
    modifies u.assets, u.flags, u.lists, u.lists.first, u.lists.next
    ensures u.Valid()
    ensures p == FinalPrice(old(u.assets[..]), name, a.prices[a.prices.Length - 1])
    ensures p == 0 ==> u.assets[..] == old(u.assets[..])
    ensures p > 0 ==>
              && Handing(u.assets[..], so, sp, name, manager, a.prices.Length)
              && |FreeSlots(u.assets[..])| == |FreeSlots(old(u.assets[..]))| - 3
              && Ledger(u.assets[..]) == Ledger(old(u.assets[..]))[Share(name, manager, ZERO_KEY) := a.prices.Length]
    ensures p > 0 ==> var t := u.assets[..]; LinkedAt(t, so) && t[t[so].issuance] == Issuance(ZERO_KEY, name, 0, unit)
  {
    p, so, sp := a.prices[a.prices.Length - 1], 0, 0;
    if p > 0 {
      ghost var t := u.assets[..];
      var issued, i;
      issued, i, so, sp := u.IssueAsset(ZERO_KEY, name, 0, unit, a.prices.Length, manager);
      if issued == 0 {
        p := 0;
      } else {
        IssueStarts(t, u.assets[..], name, unit, i, manager, a.prices.Length, so, sp);
      }
    }
  }

  /** The final price, the refunds owed, and the shares. */
  method Deal<D(!new)>(a: Auction, u: Universe<D>, name: nat, unit: nat, manager: nat, ghost book: seq<Bid>)
    returns (p: nat)
    requires a.Shape() && a.Book() == book && Named(book) && u.Valid() && Apart(a, u) && a.prices.Length <= MAX_INT64
    requires Total(book) <= MAX_AMOUNT
    requires forall i: nat :: i < |book| ==> book[i].price >= book[|book| - 1].price
    requires Room(u.assets[..], name, book)
    modifies a`numberOfReleasedEntities, a.releasedPublicKeys, a.releasedAmounts, u.assets, u.flags, u.lists,
             u.lists.first, u.lists.next
    ensures u.Valid() && Refunding(a, book, p, |book|)
    ensures p == FinalPrice(old(u.assets[..]), name, book[|book| - 1].price)
    ensures p == 0 ==> u.assets[..] == old(u.assets[..])
    ensures p > 0 ==> Distributed(old(u.assets[..]), u.assets[..], name, manager, book)
  {
    ghost var t := u.assets[..];
    var so, sp;
    p, so, sp := DecidePrice(a, u, name, unit, manager);
    ghost var l1 := Ledger(u.assets[..]);
    StartRefunds(a, p);
    if p > 0 {
      BookKeys(book, p);
    }
    StartDeal(u.assets[..], so, sp, name, manager, book, p);
    DealPlaces(a, u, p, so, sp, u.assets[..], book, name, manager);
    if p > 0 {
      DistributionDone(t, l1, u.assets[..], so, sp, name, manager, book);
    }
  }

  /** Credits the refunds; what is left of the book is the fee reserve. */
  method Settle(a: Auction, ghost book: seq<Bid>, p: nat) returns (feeReserve: nat)
    requires Refunding(a, book, p, |book|) && forall i: nat :: i < |book| ==> book[i].price >= p
    modifies a`energy
    ensures Settled(old(a.energy), a.energy, book, p)
    ensures feeReserve == p * |book| && Total(a.Released()) + feeReserve == Total(book)
  {
    ghost var energy := a.energy;
    a.PayOut();
    FinishMoney(book, p, a.Released(), energy, a.energy);
    feeReserve := p * a.prices.Length;
  }

  /** Dealing, crediting and the outcome, for a descending book of limited prices. */
  method DealAndSettle<D(!new)>(a: Auction, u: Universe<D>, name: nat, unit: nat, manager: nat, ghost book: seq<Bid>)
    returns (p: nat, feeReserve: nat, failed: bool)
    requires a.Shape() && a.Book() == book && Named(book) && u.Valid() && Apart(a, u) && a.prices.Length <= MAX_INT64
    requires Total(book) <= MAX_AMOUNT
    requires forall i: nat :: i < |book| ==> book[i].price >= book[|book| - 1].price
    requires Room(u.assets[..], name, book)
    modifies a, a.releasedPublicKeys, a.releasedAmounts, u.assets, u.flags, u.lists, u.lists.first, u.lists.next
    ensures u.Valid() && a.Shape() && a.Book() == book && failed == (p == 0)
    ensures feeReserve == p * |book| <= MAX_AMOUNT && Total(a.Released()) <= MAX_AMOUNT
    ensures p == FinalPrice(old(u.assets[..]), name, book[|book| - 1].price)
    ensures Settled(old(a.energy), a.energy, book, p) && Total(a.Released()) + feeReserve == Total(book)
    ensures p == 0 ==> u.assets[..] == old(u.assets[..])
    ensures p > 0 ==> Distributed(old(u.assets[..]), u.assets[..], name, manager, book)
  {
    p := Deal(a, u, name, unit, manager, book);
    feeReserve := Settle(a, book, p);
    failed := p == 0;
  }

  /** What the invariant of the auction says about its book. */
  lemma BookFacts(book: seq<Bid>, bids: seq<Bid>)
    requires IsBest(book, bids) && Capped(book)
    ensures Total(book) <= MAX_AMOUNT && forall i: nat :: i < |book| ==> book[i].price >= book[|book| - 1].price
  {
    LastIsLeast(book, bids);
    CappedTotal(book);
  }

  /** `finishIPOs` for one contract: the book total splits into refunds and the final price per place, which is the
      fee reserve, and for a positive final price every bidder holds one share per place. */
  method FinishIPO<D(!new)>(a: Auction, u: Universe<D>, name: nat, unit: nat, manager: nat)
    returns (p: nat, feeReserve: nat, failed: bool)
    requires a.Valid() && u.Valid() && Apart(a, u) && a.prices.Length <= MAX_INT64
    requires Room(u.assets[..], name, a.Book())
    modifies a, a.releasedPublicKeys, a.releasedAmounts, u.assets, u.flags, u.lists, u.lists.first, u.lists.next
    ensures u.Valid() && a.Shape() && a.Book() == old(a.Book()) && failed == (p == 0)
    ensures feeReserve == p * |a.Book()| <= MAX_AMOUNT && Total(a.Released()) <= MAX_AMOUNT
    ensures p == if exists s: nat :: s < u.assets.Length && old(u.assets[s]).Issuance? && old(u.assets[s]).name == name
                      && old(u.assets[s]).key.u0 == 0 && old(u.assets[s]).key.u1 == 0 && old(u.assets[s]).key.u2 == 0
                 then 0 else old(a.prices[a.prices.Length - 1])
    ensures Settled(old(a.energy), a.energy, a.Book(), p) && Total(a.Released()) + feeReserve == Total(a.Book())
    ensures p == 0 ==> u.assets[..] == old(u.assets[..])
    ensures p > 0 ==> Distributed(old(u.assets[..]), u.assets[..], name, manager, a.Book())
  {
    ghost var book := a.Book();
    BookFacts(book, a.bids);
    IssuableFields(u.assets[..], ZERO_KEY, name);
    p, feeReserve, failed := DealAndSettle(a, u, name, unit, manager, book);
  }
}
