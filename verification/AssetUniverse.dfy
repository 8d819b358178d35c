/** The asset universe in place: the record array, its change flags, its digest tree and
    its index lists, and the operations that update them together. */
module AssetUniverse {
  import opened AssetTable
  import opened AssetIndexLists
  import opened AssetMoves
  import opened AssetRebuild
  import opened MerkleTree
  import opened Powers

  // ----- The index lists follow single moves -----

  /** The list heads and links after a move that may have created record `dst` below `q`. */
  ghost predicate ListsAfter(created: bool, q: nat, dst: nat, first: seq<nat>, next: seq<nat>, first': seq<nat>,
                             next': seq<nat>)
    requires |first| == |next| && q < |first| && dst < |next|
  {
    if created then first' == first[q := dst] && next' == next[dst := first[q]]
    else first' == first && next' == next
  }

  lemma MoveAgrees(t: Table, src: nat, dst: nat, r: Record, n: int, issuances: nat,
                   first: seq<nat>, next: seq<nat>, first': seq<nat>, next': seq<nat>)
    requires AgreeFrom(t, issuances, first, next, 0) && Shape(t) && CanMove(t, src, dst, r)
    requires LinkOk(t, r) && ListsAfter(t[dst].Empty?, Parent(r), dst, first, next, first', next')
    ensures AgreeFrom(MoveTo(t, src, dst, r, n), issuances, first', next', 0)
  {
    var t1 := AddShares(t, src, -n);
    SharesKeepAgreement(t, src, SharesOf(t[src]) - n, issuances, first, next);
    var t2 := if t1[dst].Empty? then t1[dst := r] else t1;
    if t1[dst].Empty? {
      InsertIsOneMore(t1, dst, r);
      AddChildAgrees(t1, 0, t2, 0, dst, Parent(r), issuances, first, next);
    }
    SharesKeepAgreement(t2, dst, SharesOf(t2[dst]) + n, issuances, first', next');
  }

  lemma IssueAgrees(t: Table, t': Table, a: Record, i: nat, manager: nat, n: int, j: nat, k: nat,
                    issuances: nat, first: seq<nat>, next: seq<nat>)
    requires AgreeFrom(t, issuances, first, next, 0) && Shape(t) && Issued(t, t', a, i, manager, n, j, k)
    ensures var next1 := next[i := issuances];
            var first2, next2 := first[i := j], next1[j := first[i]];
            AgreeFrom(t', i, first2[j := k], next2[k := first2[j]], 0)
  {
    IssueShape(t, t', a, i, manager, n, j, k);
    var t1, o := t[i := a], Ownership(a.key, manager, i, n);
    var t2 := t1[j := o];
    InsertIsOneMore(t, i, a);
    AddIssuanceAgrees(t, 0, t1, 0, i, issuances, first, next);
    InsertIsOneMore(t1, j, o);
    var next1 := next[i := issuances];
    AddChildAgrees(t1, 0, t2, 0, j, i, i, first, next1);
    InsertIsOneMore(t2, k, Possession(a.key, manager, j, n));
    AddChildAgrees(t2, 0, t', 0, k, j, i, first[i := j], next1[j := first[i]]);
  }

  // ----- The state invariant -----

  /** What every operation keeps: the table is good, the lists agree with it, and every
      digest without a flagged record below it is current. */
  ghost predicate StateOk<D(!new)>(hash: Hash<Record, D>, t: Table, f: seq<bool>, d: seq<D>, depth: nat,
                                   issuances: nat, first: seq<nat>, next: seq<nat>) {
    Good(t) && AgreeFrom(t, issuances, first, next, 0) && Fresh(hash, t, f, d, depth)
  }

  /** All changed slots are flagged, and no flag is lost. */
  ghost predicate Flagged(t: Table, f: seq<bool>, t': Table, f': seq<bool>) {
    |t| == |f| == |t'| == |f'| && forall i: nat :: i < |t| && !f'[i] ==> !f[i] && t'[i] == t[i]
  }

  lemma TransferKeepsLists(t: Table, t': Table, so: nat, sp: nat, ro: Record, do: nat, rp: Record, dp: nat, n: int,
                           issuances: nat, first: seq<nat>, next: seq<nat>, first1: seq<nat>, next1: seq<nat>,
                           first2: seq<nat>, next2: seq<nat>)
    requires Good(t) && Transferred(t, t', so, sp, ro, do, rp, dp, n) && AgreeFrom(t, issuances, first, next, 0)
    requires ListsAfter(t[do].Empty?, Parent(ro), do, first, next, first1, next1)
    requires ListsAfter(MoveTo(t, so, do, ro, n)[dp].Empty?, do, dp, first1, next1, first2, next2)
    ensures AgreeFrom(t', issuances, first2, next2, 0)
  {
    MoveShape(t, so, do, ro, n);
    MoveAgrees(t, so, do, ro, n, issuances, first, next, first1, next1);
    MoveAgrees(MoveTo(t, so, do, ro, n), sp, dp, rp, n, issuances, first1, next1, first2, next2);
  }

  lemma TransferFlagged(t: Table, t': Table, so: nat, sp: nat, ro: Record, do: nat, rp: Record, dp: nat, n: int,
                        f: seq<bool>, f': seq<bool>)
    requires Good(t) && Transferred(t, t', so, sp, ro, do, rp, dp, n) && |f| == |f'| == |t|
    requires forall i: nat :: i < |f| ==> f'[i] == (f[i] || i == so || i == sp || i == do || i == dp)
    ensures Flagged(t, f, t', f')
  {
    forall i: nat | i < |t| && !f'[i] ensures !f[i] && t'[i] == t[i] {
      TransferShares(t, t', so, sp, ro, do, rp, dp, n, i);
    }
  }

  lemma TransferKeeps<D(!new)>(hash: Hash<Record, D>, t: Table, t': Table, f: seq<bool>, f': seq<bool>, d: seq<D>,
                               depth: nat, issuances: nat, first: seq<nat>, next: seq<nat>, first1: seq<nat>,
                               next1: seq<nat>, first2: seq<nat>, next2: seq<nat>,
                               so: nat, sp: nat, ro: Record, do: nat, rp: Record, dp: nat, n: int)
    requires StateOk(hash, t, f, d, depth, issuances, first, next) && Transferred(t, t', so, sp, ro, do, rp, dp, n)
    requires ListsAfter(t[do].Empty?, Parent(ro), do, first, next, first1, next1)
    requires ListsAfter(MoveTo(t, so, do, ro, n)[dp].Empty?, do, dp, first1, next1, first2, next2)
    requires |f'| == |f| && forall i: nat :: i < |f| ==> f'[i] == (f[i] || i == so || i == sp || i == do || i == dp)
    ensures StateOk(hash, t', f', d, depth, issuances, first2, next2)
  {
    TransferGood(t, t', so, sp, ro, do, rp, dp, n);
    TransferKeepsLists(t, t', so, sp, ro, do, rp, dp, n, issuances, first, next, first1, next1, first2, next2);
    TransferFlagged(t, t', so, sp, ro, do, rp, dp, n, f, f');
    FlaggedChangesKeepFresh(hash, t, f, t', f', d, depth);
  }

  lemma BurnKeeps<D(!new)>(hash: Hash<Record, D>, t: Table, f: seq<bool>, f': seq<bool>, d: seq<D>, depth: nat,
                           issuances: nat, first: seq<nat>, next: seq<nat>, so: nat, sp: nat, n: int)
    requires StateOk(hash, t, f, d, depth, issuances, first, next)
    requires so < |t| && sp < |t| && n > 0 && SourceOk(t, so, sp, n) && f' == f[so := true][sp := true]
    ensures StateOk(hash, Burned(t, so, sp, n), f', d, depth, issuances, first, next)
  {
    BurnGood(t, so, sp, n);
    var t1 := AddShares(t, so, -n);
    SharesKeepAgreement(t, so, SharesOf(t[so]) - n, issuances, first, next);
    SharesKeepAgreement(t1, sp, SharesOf(t1[sp]) - n, issuances, first, next);
    FlaggedChangesKeepFresh(hash, t, f, Burned(t, so, sp, n), f', d, depth);
  }

  lemma IssueKeeps<D(!new)>(hash: Hash<Record, D>, t: Table, t': Table, f: seq<bool>, f': seq<bool>, d: seq<D>,
                            depth: nat, issuances: nat, first: seq<nat>, next: seq<nat>, first': seq<nat>,
                            next': seq<nat>, a: Record, i: nat, manager: nat, n: int, j: nat, k: nat)
    requires StateOk(hash, t, f, d, depth, issuances, first, next)
    requires Issued(t, t', a, i, manager, n, j, k)
    requires f' == f[i := true][j := true][k := true]
    requires first' == first[i := j][j := k]
    requires next' == next[i := issuances][j := first[i]][k := first[i := j][j]]
    ensures StateOk(hash, t', f', d, depth, i, first', next') <==> 0 <= n <= MAX_INT64
  {
    IssueGood(t, t', a, i, manager, n, j, k);
    IssueAgrees(t, t', a, i, manager, n, j, k, issuances, first, next);
    FlaggedChangesKeepFresh(hash, t, f, t', f', d, depth);
  }

  // ----- Looking up a holding -----

  /** The three records a holding goes through. */
  ghost predicate HoldingPath(t: Table, h: Holding, a: nat, o: nat, p: nat) {
    && a < |t| && Matches(TheIssuance(h.issuer, h.name), t[a])
    && o < |t| && Matches(TheRecord(Ownership(h.owner, h.ownerManager, a, 0)), t[o])
    && p < |t| && Matches(TheRecord(Possession(h.possessor, h.possessorManager, o, 0)), t[p])
  }

  lemma PathHolds(t: Table, h: Holding, a: nat, o: nat, p: nat)
    requires Shape(t) && HoldingPath(t, h, a, o, p)
    ensures h in Ledger(t) && Ledger(t)[h] == SharesOf(t[p])
  {
    assert LinkedAt(t, p) && LinkedAt(t, o);
    assert HoldsAt(t, p, h);
    LedgerAt(t, p);
  }

  lemma HeldHasPath(t: Table, h: Holding) returns (a: nat, o: nat, p: nat)
    requires Shape(t) && h in Ledger(t)
    ensures HoldingPath(t, h, a, o, p)
  {
    p := LedgerFrom(t, h);
    assert LinkedAt(t, p);
    o := t[p].ownership;
    assert LinkedAt(t, o);
    a := t[o].issuance;
  }

  /** A table with a free slot, or with the path itself, lets each probe of a lookup end. */
  ghost predicate Findable(t: Table, h: Holding)
    requires Shape(t)
  {
    FreeSlots(t) != {} || h in Ledger(t)
  }

  lemma FreeSlotStops(t: Table, g: Goal)
    requires FreeSlots(t) != {}
    ensures CanStop(t, g)
  {
    var i :| i in FreeSlots(t);
    assert Stops(g, t[i]);
  }

  lemma FirstProbeStops(t: Table, h: Holding)
    requires Shape(t) && Findable(t, h)
    ensures CanStop(t, TheIssuance(h.issuer, h.name))
  {
    if h in Ledger(t) {
      var a, o, p := HeldHasPath(t, h);
      assert Stops(TheIssuance(h.issuer, h.name), t[a]);
    } else {
      FreeSlotStops(t, TheIssuance(h.issuer, h.name));
    }
  }

  lemma SecondProbeStops(t: Table, h: Holding, a: nat)
    requires Shape(t) && Findable(t, h) && a < |t| && Matches(TheIssuance(h.issuer, h.name), t[a])
    ensures CanStop(t, TheRecord(Ownership(h.owner, h.ownerManager, a, 0)))
  {
    var g := TheRecord(Ownership(h.owner, h.ownerManager, a, 0));
    if h in Ledger(t) {
      var a', o, p := HeldHasPath(t, h);
      MatchUnique(t, TheIssuance(h.issuer, h.name), a, a');
      assert Stops(g, t[o]);
    } else {
      FreeSlotStops(t, g);
    }
  }

  lemma ThirdProbeStops(t: Table, h: Holding, a: nat, o: nat)
    requires Shape(t) && Findable(t, h) && a < |t| && Matches(TheIssuance(h.issuer, h.name), t[a])
    requires o < |t| && Matches(TheRecord(Ownership(h.owner, h.ownerManager, a, 0)), t[o])
    ensures CanStop(t, TheRecord(Possession(h.possessor, h.possessorManager, o, 0)))
  {
    var g := TheRecord(Possession(h.possessor, h.possessorManager, o, 0));
    if h in Ledger(t) {
      var a', o', p := HeldHasPath(t, h);
      MatchUnique(t, TheIssuance(h.issuer, h.name), a, a');
      MatchUnique(t, TheRecord(Ownership(h.owner, h.ownerManager, a, 0)), o, o');
      assert Stops(g, t[p]);
    } else {
      FreeSlotStops(t, g);
    }
  }

  /** A lookup that stops short at any of the three probes has shown that nothing is held. */
  lemma MissingStep(t: Table, h: Holding, a: nat, o: nat)
    requires Shape(t)
    requires || (forall x: nat :: x < |t| ==> !Matches(TheIssuance(h.issuer, h.name), t[x]))
             || (&& a < |t| && Matches(TheIssuance(h.issuer, h.name), t[a])
                 && var g := TheRecord(Ownership(h.owner, h.ownerManager, a, 0));
                 || (forall x: nat :: x < |t| ==> !Matches(g, t[x]))
                 || (&& o < |t| && Matches(g, t[o])
                     && var g' := TheRecord(Possession(h.possessor, h.possessorManager, o, 0));
                     forall x: nat :: x < |t| ==> !Matches(g', t[x])))
    ensures h !in Ledger(t)
  {
    if h in Ledger(t) {
      var a', o', p := HeldHasPath(t, h);
      if a < |t| && Matches(TheIssuance(h.issuer, h.name), t[a]) {
        MatchUnique(t, TheIssuance(h.issuer, h.name), a, a');
        var g := TheRecord(Ownership(h.owner, h.ownerManager, a, 0));
        if o < |t| && Matches(g, t[o]) { MatchUnique(t, g, o, o'); }
      }
    }
  }

  // ----- Room for a transfer -----

  /** Both probes of a transfer end: each finds its record or a free slot for it. */
  ghost predicate RoomFor(t: Table, ro: Record, possessor: PublicKey, manager: nat) {
    || |FreeSlots(t)| >= 2
    || exists o: nat :: o < |t| && SameIdentity(t[o], ro) &&
         (FreeSlots(t) != {} || CanStop(t, TheRecord(Possession(possessor, manager, o, 0))))
  }

  lemma RoomForOwner(t: Table, ro: Record, possessor: PublicKey, manager: nat)
    requires RoomFor(t, ro, possessor, manager)
    ensures CanStop(t, TheRecord(ro))
  {
    if |FreeSlots(t)| >= 2 {
      FreeSlotStops(t, TheRecord(ro));
    } else {
      var o: nat :| o < |t| && SameIdentity(t[o], ro);
      assert Stops(TheRecord(ro), t[o]);
    }
  }

  lemma RoomForPossessor(t: Table, so: nat, ro: Record, do: nat, possessor: PublicKey, manager: nat, n: int)
    requires Shape(t) && CanMove(t, so, do, ro) && RoomFor(t, ro, possessor, manager)
    ensures CanStop(MoveTo(t, so, do, ro, n), TheRecord(Possession(possessor, manager, do, 0)))
  {
    MoveShape(t, so, do, ro, n);
    if t[do].Empty? {
      RoomInNew(t, so, do, ro, possessor, manager, n);
    } else {
      RoomInOld(t, so, do, ro, possessor, manager, n);
    }
  }

  lemma RoomInNew(t: Table, so: nat, do: nat, ro: Record, possessor: PublicKey, manager: nat, n: int)
    requires Shape(t) && CanMove(t, so, do, ro) && RoomFor(t, ro, possessor, manager) && t[do].Empty?
    ensures CanStop(MoveTo(t, so, do, ro, n), TheRecord(Possession(possessor, manager, do, 0)))
  {
    var t3 := MoveTo(t, so, do, ro, n);
    assert FreeSlots(t3) == FreeSlots(t) - {do};
    assert |FreeSlots(t)| >= 2;
    assert |FreeSlots(t3)| >= 1;
    FreeSlotStops(t3, TheRecord(Possession(possessor, manager, do, 0)));
  }

  lemma RoomInOld(t: Table, so: nat, do: nat, ro: Record, possessor: PublicKey, manager: nat, n: int)
    requires Shape(t) && CanMove(t, so, do, ro) && RoomFor(t, ro, possessor, manager) && !t[do].Empty?
    ensures CanStop(MoveTo(t, so, do, ro, n), TheRecord(Possession(possessor, manager, do, 0)))
  {
    var t3, g := MoveTo(t, so, do, ro, n), TheRecord(Possession(possessor, manager, do, 0));
    assert FreeSlots(t3) == FreeSlots(t);
    if FreeSlots(t) != {} {
      FreeSlotStops(t3, g);
    } else {
      var o: nat :| o < |t| && SameIdentity(t[o], ro) && CanStop(t, TheRecord(Possession(possessor, manager, o, 0)));
      MatchUnique(t, TheRecord(ro), o, do);
      var x: nat :| x < |t| && Stops(g, t[x]);
      assert x !in FreeSlots(t);
      assert Stops(g, t3[x]);
    }
  }

  lemma EmptyTable(t: Table)
    requires |t| > 0 && forall i: nat :: i < |t| ==> t[i].Empty?
    ensures Good(t) && Ledger(t) == map[]
  {
    forall i: nat | i < |t| ensures ReachableAt(t, i) && LinkedAt(t, i) && BalancedAt(t, i) {}
    forall h | h in Ledger(t) ensures false { var i := LedgerFrom(t, h); }
  }

  lemma EmptySlots(t: Table)
    requires |t| >= 3 && forall i: nat :: i < |t| ==> t[i].Empty?
    ensures |FreeSlots(t)| >= 3
  {
    var rest := FreeSlots(t) - {0, 1, 2};
    assert FreeSlots(t) == {0, 1, 2} + rest;
  }

  // ----- The universe -----

  /** The probe loop every operation contains: from slot `h` on, wrapping, to the first
      slot that is empty or matches. */
  method Probe(table: array<Record>, h: nat, g: Goal) returns (i: nat)
    requires h < table.Length && CanStop(table[..], g)
    ensures StopsAt(table[..], h, g, i)
  {
    ghost var t, d := table[..], 0;
    i := h;
    ghost var s: nat :| s < |t| && Stops(g, t[s]);
    while !Stops(g, table[i])
      invariant 0 <= d <= Dist(h, s, |t|) && i == Slot(h, d, |t|)
      invariant forall e: nat :: e < d ==> !Stops(g, t[Slot(h, e, |t|)])
      decreases |t| - d
    {
      i := if i + 1 == table.Length then 0 else i + 1;
      d := d + 1;
    }
  }

  method PutInPlace(table: array<Record>, y: nat, c: Record)
    requires y < table.Length
    modifies table
    ensures table[..] == Put(old(table[..]), y, c)
  {
    if table[y].Empty? {
      table[y] := c;
    }
  }

  method AddInPlace(table: array<Record>, y: nat, n: int)
    requires y < table.Length
    modifies table
    ensures table[..] == AddShares(old(table[..]), y, n)
  {
    table[y] := WithShares(table[y], SharesOf(table[y]) + n);
  }

  class Universe<D(!new)> {
    const depth: nat
    const hash: Hash<Record, D>
    const assets: array<Record>
    const digests: array<D>
    const flags: array<bool>
    const lists: IndexLists

    /** The arrays have their sizes and do not overlap. */
    ghost predicate Separate()
      reads this
    {
      && depth >= 6 && Pow2(depth) < NO_INDEX
      && assets.Length == flags.Length == lists.first.Length == lists.next.Length == Pow2(depth)
      && digests.Length == 2 * Pow2(depth) - 1
      && assets as object != digests && assets as object != flags && flags as object != digests
      && assets as object != lists.first && assets as object != lists.next
      && digests as object != lists.first && digests as object != lists.next
      && flags as object != lists.first && flags as object != lists.next
      && lists.first != lists.next
    }

    ghost predicate Valid()
      reads this, assets, digests, flags, lists, lists.first, lists.next
    {
      && Separate()
      && StateOk(hash, assets[..], flags[..], digests[..], depth, lists.issuancesFirst, lists.first[..], lists.next[..])
    }

    /** `initAssets`: an empty universe with every flag set. */
    constructor (depth: nat, hash: Hash<Record, D>, zero: D)
      requires depth >= 6 && Pow2(depth) < NO_INDEX
      ensures Valid() && this.depth == depth && this.hash == hash
      ensures Ledger(assets[..]) == map[] && forall i: nat :: i < flags.Length ==> flags[i]
      ensures forall i: nat :: i < assets.Length ==> assets[i].Empty?
      ensures fresh(assets) && fresh(flags) && fresh(digests) && fresh(lists) && fresh(lists.first) && fresh(lists.next)
    {
      this.depth := depth;
      this.hash := hash;
      assets := new Record[Pow2(depth)](_ => Empty);
      digests := new D[2 * Pow2(depth) - 1](_ => zero);
      flags := new bool[Pow2(depth)](_ => true);
      lists := new IndexLists(Pow2(depth));
      new;
      EmptyTable(assets[..]);
      lists.Rebuild(assets);
      AllFlaggedFresh(hash, assets[..], flags[..], digests[..], depth);
    }

    // ----- Reading -----

    /** `issuanceIndex`: the only issuance with this issuer and name, or `NO_INDEX`. */
    method IssuanceIndex(issuer: PublicKey, name: nat) returns (idx: nat)
      requires Valid() && CanStop(assets[..], TheIssuance(issuer, name))
      ensures idx == 0xffff_ffff <==>
                forall i: nat :: i < assets.Length ==>
                  !(assets[i].Issuance? && assets[i].name == name && assets[i].key == issuer)
      ensures idx != NO_INDEX ==>
                forall i: nat :: i < assets.Length ==>
                  (assets[i].Issuance? && assets[i].name == name && assets[i].key == issuer <==> i == idx)
    {
      ghost var t := assets[..];
      var g := TheIssuance(issuer, name);
      idx := Probe(assets, Home(issuer, assets.Length), g);
      if assets[idx].Empty? {
        ProbeMiss(t, Home(issuer, |t|), g, idx);
        idx := NO_INDEX;
      } else {
        forall i: nat | i < |t| && Matches(g, t[i]) ensures i == idx { MatchUnique(t, g, i, idx); }
      }
    }

    /** `numberOfPossessedShares`: the ledger entry of a holding, 0 if it has none. */
    method NumberOfPossessedShares(h: Holding) returns (n: int)
      requires Valid() && Findable(assets[..], h)
      ensures n == if h in Ledger(assets[..]) then Ledger(assets[..])[h] else 0
    {
      ghost var t := assets[..];
      FirstProbeStops(t, h);
      var a := Probe(assets, Home(h.issuer, assets.Length), TheIssuance(h.issuer, h.name));
      if assets[a].Empty? {
        ProbeMiss(t, Home(h.issuer, |t|), TheIssuance(h.issuer, h.name), a);
        MissingStep(t, h, a, a);
        return 0;
      }
      var ro := Ownership(h.owner, h.ownerManager, a, 0);
      SecondProbeStops(t, h, a);
      var o := Probe(assets, Home(h.owner, assets.Length), TheRecord(ro));
      if assets[o].Empty? {
        ProbeMiss(t, Home(h.owner, |t|), TheRecord(ro), o);
        MissingStep(t, h, a, o);
        return 0;
      }
      var rp := Possession(h.possessor, h.possessorManager, o, 0);
      ThirdProbeStops(t, h, a, o);
      var p := Probe(assets, Home(h.possessor, assets.Length), TheRecord(rp));
      if assets[p].Empty? {
        ProbeMiss(t, Home(h.possessor, |t|), TheRecord(rp), p);
        MissingStep(t, h, a, o);
        return 0;
      }
      PathHolds(t, h, a, o, p);
      n := assets[p].shares;
    }

    // ----- Transferring -----

    /** Debits `src`, creates the record like `r` at `dst` if the slot is empty, credits it. */
    method MoveRecord(src: nat, dst: nat, r: Record, n: int)
      requires Separate() && src < assets.Length && dst < assets.Length && 0 <= Parent(r) < assets.Length
      requires (assets[src].Ownership? || assets[src].Possession?) && (r.Ownership? || r.Possession?)
      modifies assets, lists.first, lists.next
      ensures assets[..] == MoveTo(old(assets[..]), src, dst, r, n)
      ensures ListsAfter(old(assets[dst]).Empty?, Parent(r), dst, old(lists.first[..]), old(lists.next[..]),
                         lists.first[..], lists.next[..])
    {
      assets[src] := WithShares(assets[src], SharesOf(assets[src]) - n);
      if assets[dst].Empty? {
        assets[dst] := r;
        lists.AddChild(Parent(r), dst);
      }
      assets[dst] := WithShares(assets[dst], SharesOf(assets[dst]) + n);
    }

    method SetFlags(a: nat, b: nat, c: nat, d: nat)
      requires a < flags.Length && b < flags.Length && c < flags.Length && d < flags.Length
      modifies flags
      ensures forall i: nat :: i < flags.Length ==> flags[i] == (old(flags[i]) || i == a || i == b || i == c || i == d)
    {
      flags[a] := true;
      flags[b] := true;
      flags[c] := true;
      flags[d] := true;
    }

    /** First half of a transfer: finds or creates the destination ownership and moves the shares there. */
    method MoveOwnership(so: nat, owner: PublicKey, manager: nat, n: int, ghost possessor: PublicKey,
                         ghost possessorManager: nat)
      returns (do: nat)
      requires Separate() && Shape(assets[..]) && so < assets.Length && assets[so].Ownership?
      requires RoomFor(assets[..], OwnerGoal(assets[..], so, owner, manager), possessor, possessorManager)
      modifies assets, lists.first, lists.next
      ensures var t, ro := old(assets[..]), OwnerGoal(old(assets[..]), so, owner, manager);
              && CanMove(t, so, do, ro) && assets[..] == MoveTo(t, so, do, ro, n)
              && ListsAfter(t[do].Empty?, Parent(ro), do, old(lists.first[..]), old(lists.next[..]),
                            lists.first[..], lists.next[..])
              && CanStop(assets[..], TheRecord(Possession(possessor, possessorManager, do, 0)))
    {
      ghost var t := assets[..];
      var ro := Ownership(owner, manager, assets[so].issuance, 0);
      assert LinkedAt(t, so);
      RoomForOwner(t, ro, possessor, possessorManager);
      do := Probe(assets, Home(owner, assets.Length), TheRecord(ro));
      ProbeAllowsMove(t, so, do, ro);
      RoomForPossessor(t, so, ro, do, possessor, possessorManager, n);
      MoveRecord(so, do, ro, n);
    }

    /** Second half: the same for the possession below ownership `do`. */
    method MovePossession(sp: nat, do: nat, possessor: PublicKey, manager: nat, n: int) returns (dp: nat)
      requires Separate() && Shape(assets[..]) && sp < assets.Length && assets[sp].Possession?
      requires do < assets.Length && assets[do].Ownership?
      requires CanStop(assets[..], TheRecord(Possession(possessor, manager, do, 0)))
      modifies assets, lists.first, lists.next
      ensures var t, rp := old(assets[..]), Possession(possessor, manager, do, 0);
              && CanMove(t, sp, dp, rp) && assets[..] == MoveTo(t, sp, dp, rp, n)
              && ListsAfter(t[dp].Empty?, do, dp, old(lists.first[..]), old(lists.next[..]),
                            lists.first[..], lists.next[..])
    {
      ghost var t := assets[..];
      var rp := Possession(possessor, manager, do, 0);
      dp := Probe(assets, Home(possessor, assets.Length), TheRecord(rp));
      ProbeAllowsMove(t, sp, dp, rp);
      MoveRecord(sp, dp, rp, n);
    }

    /** The common part of the two transfer functions, once the source has been checked. */
    method MoveShares(so: nat, sp: nat, owner: PublicKey, ownerManager: nat, possessor: PublicKey,
                      possessorManager: nat, n: int)
      returns (do: nat, dp: nat)
      requires Valid() && so < assets.Length && sp < assets.Length && n > 0 && SourceOk(assets[..], so, sp, n)
      requires RoomFor(assets[..], OwnerGoal(assets[..], so, owner, ownerManager), possessor, possessorManager)
      modifies assets, flags, lists.first, lists.next
      ensures Valid()
      ensures Transferred(old(assets[..]), assets[..], so, sp, OwnerGoal(old(assets[..]), so, owner, ownerManager), do,
                          Possession(possessor, possessorManager, do, 0), dp, n)
    {
      ghost var t, f, first, next := assets[..], flags[..], lists.first[..], lists.next[..];
      ghost var ro := OwnerGoal(t, so, owner, ownerManager);
      do := MoveOwnership(so, owner, ownerManager, n, possessor, possessorManager);
      ghost var first1, next1 := lists.first[..], lists.next[..];
      MoveShape(t, so, do, ro, n);
      MoveRecords(t, so, do, ro, n, sp);
      MoveRecords(t, so, do, ro, n, do);
      dp := MovePossession(sp, do, possessor, possessorManager, n);
      SetFlags(so, sp, do, dp);

      ghost var t', rp := assets[..], Possession(possessor, possessorManager, do, 0);
      TransferKeeps(hash, t, t', f, flags[..], digests[..], depth, lists.issuancesFirst, first, next, first1, next1,
                    lists.first[..], lists.next[..], so, sp, ro, do, rp, dp, n);
    }

    /** `transferShareManagementRights`: the same owner and possessor, under other managing contracts. */
    method TransferShareManagementRights(so: nat, sp: nat, ownerManager: nat, possessorManager: nat, n: int)
      returns (ok: bool, do: nat, dp: nat)
      requires Valid() && so < assets.Length && sp < assets.Length
      requires n > 0 && SourceOk(assets[..], so, sp, n) ==>
                 RoomFor(assets[..], OwnerGoal(assets[..], so, assets[so].key, ownerManager), assets[sp].key,
                         possessorManager)
      modifies assets, flags, lists.first, lists.next
      ensures Valid()
      ensures ok == (n > 0 && old(assets[so]).Ownership? && old(assets[so]).shares >= n
                     && old(assets[sp]).Possession? && old(assets[sp]).shares >= n && old(assets[sp]).ownership == so)
      ensures !ok ==> unchanged(assets, flags, lists.first, lists.next)
      ensures ok ==> HoldingOf(old(assets[..]), sp) in Ledger(old(assets[..]))
      ensures ok ==> var t := old(assets[..]);
                     Ledger(assets[..]) == MoveHolding(Ledger(t), HoldingOf(t, sp),
                       Destination(t, so, t[so].key, ownerManager, t[sp].key, possessorManager), n)
      ensures ok ==> var t := old(assets[..]); LinkedAt(t, so) && var a := t[t[so].issuance];
                     && HoldingOf(t, sp)
                        == Holding(a.key, a.name, t[so].key, t[so].manager, t[sp].key, t[sp].manager)
                     && Destination(t, so, t[so].key, ownerManager, t[sp].key, possessorManager)
                        == Holding(a.key, a.name, t[so].key, ownerManager, t[sp].key, possessorManager)
      ensures forall a: nat :: a < assets.Length && old(assets[a]).Issuance? ==>
                assets[a] == old(assets[a]) && Children(assets[..], a) == Children(old(assets[..]), a)
    {
      do, dp := 0, 0;
      if n <= 0 || !SourceOk(assets[..], so, sp, n) {
        return false, 0, 0;
      }
      ghost var t := assets[..];
      ok := true;
      do, dp := MoveShares(so, sp, assets[so].key, ownerManager, assets[sp].key, possessorManager, n);
      TransferEffect(t, assets[..], so, sp, OwnerGoal(t, so, t[so].key, ownerManager), do,
                     Possession(t[sp].key, possessorManager, do, 0), dp, n);
    }

    /** `transferShareOwnershipAndPossession`: to another key under the same managing contracts;
        the zero key burns the shares, which is refused for contract shares. */
    method TransferShareOwnershipAndPossession(so: nat, sp: nat, destination: PublicKey, n: int)
      returns (ok: bool, do: nat, dp: nat)
      requires Valid() && so < assets.Length && sp < assets.Length
      requires n > 0 && SourceOk(assets[..], so, sp, n) && destination != ZERO_KEY ==>
                 RoomFor(assets[..], OwnerGoal(assets[..], so, destination, assets[so].manager), destination,
                         assets[sp].manager)
      modifies assets, flags, lists.first, lists.next
      ensures Valid()
      ensures ok == (n > 0 && old(assets[so]).Ownership? && old(assets[so]).shares >= n
                     && old(assets[sp]).Possession? && old(assets[sp]).shares >= n && old(assets[sp]).ownership == so
                     && (destination == ZERO_KEY ==> HoldingOf(old(assets[..]), sp).issuer != ZERO_KEY))
      ensures ok ==> var t := old(assets[..]); LinkedAt(t, so) && var a := t[t[so].issuance];
                     && HoldingOf(t, sp)
                        == Holding(a.key, a.name, t[so].key, t[so].manager, t[sp].key, t[sp].manager)
                     && Destination(t, so, destination, t[so].manager, destination, t[sp].manager)
                        == Holding(a.key, a.name, destination, t[so].manager, destination, t[sp].manager)
      ensures !ok ==> unchanged(assets, flags, lists.first, lists.next)
      ensures ok ==> HoldingOf(old(assets[..]), sp) in Ledger(old(assets[..]))
      ensures ok && destination != ZERO_KEY ==> var t := old(assets[..]);
                     Ledger(assets[..]) == MoveHolding(Ledger(t), HoldingOf(t, sp),
                       Destination(t, so, destination, t[so].manager, destination, t[sp].manager), n)
      ensures ok && destination != ZERO_KEY ==> var t := old(assets[..]);
                     Transferred(t, assets[..], so, sp, OwnerGoal(t, so, destination, t[so].manager), do,
                                 Possession(destination, t[sp].manager, do, 0), dp, n)
      ensures ok && destination == ZERO_KEY ==> var t, h := old(assets[..]), HoldingOf(old(assets[..]), sp);
                     Ledger(assets[..]) == Ledger(t)[h := Ledger(t)[h] - n]
      ensures forall a: nat :: a < assets.Length && old(assets[a]).Issuance? ==>
                && assets[a] == old(assets[a])
                && Children(assets[..], a) == Children(old(assets[..]), a)
                   - Delta(ok && destination == ZERO_KEY && Parent(old(assets[so])) == a, n)
    {
      do, dp := 0, 0;
      if n <= 0 || !SourceOk(assets[..], so, sp, n) {
        return false, 0, 0;
      }
      ghost var t := assets[..];
      assert LinkedAt(t, so);
      if destination == ZERO_KEY {
        ok := assets[assets[so].issuance].key != ZERO_KEY;
        if ok {
          Burn(so, sp, n);
        }
        return;
      }
      ok := true;
      do, dp := MoveShares(so, sp, destination, assets[so].manager, destination, assets[sp].manager, n);
      TransferEffect(t, assets[..], so, sp, OwnerGoal(t, so, destination, t[so].manager), do,
                     Possession(destination, t[sp].manager, do, 0), dp, n);
    }

    method Burn(so: nat, sp: nat, n: int)
      requires Valid() && so < assets.Length && sp < assets.Length && n > 0 && SourceOk(assets[..], so, sp, n)
      modifies assets, flags
      ensures Valid() && assets[..] == Burned(old(assets[..]), so, sp, n)
      ensures var t, h := old(assets[..]), HoldingOf(old(assets[..]), sp);
              h in Ledger(t) && Ledger(assets[..]) == Ledger(t)[h := Ledger(t)[h] - n]
      ensures forall a: nat :: a < assets.Length && old(assets[a]).Issuance? ==>
                && assets[a] == old(assets[a])
                && Children(assets[..], a) == Children(old(assets[..]), a) - Delta(Parent(old(assets[so])) == a, n)
    {
      ghost var t, f := assets[..], flags[..];
      assets[so] := WithShares(assets[so], SharesOf(assets[so]) - n);
      assets[sp] := WithShares(assets[sp], SharesOf(assets[sp]) - n);
      flags[so] := true;
      flags[sp] := true;
      assert assets[..] == Burned(t, so, sp, n) && flags[..] == f[so := true][sp := true];
      BurnKeeps(hash, t, f, flags[..], digests[..], depth, lists.issuancesFirst, lists.first[..], lists.next[..], so,
                sp, n);
      BurnLedger(t, so, sp, n);
      BurnGood(t, so, sp, n);
    }

    // ----- Issuing -----

    /** `issueAsset`: refused when an issuance of the same name and low 192 issuer bits exists. The number of
        shares is not checked: outside 0 to 2^63 - 1 the issue breaks the invariant. */
    method IssueAsset(key: PublicKey, name: nat, decimals: int, unit: nat, n: int, manager: nat)
      returns (issued: int, i: nat, j: nat, k: nat)
      requires Valid()
      requires Issuable(assets[..], key, name) ==> |FreeSlots(assets[..])| >= 3
      modifies assets, flags, lists, lists.first, lists.next
      ensures Separate() && Shape(assets[..])
      ensures !Issuable(old(assets[..]), key, name) <==> var t := old(assets[..]);
                exists s: nat :: s < |t| && t[s].Issuance? && t[s].name == name
                  && t[s].key.u0 == key.u0 && t[s].key.u1 == key.u1 && t[s].key.u2 == key.u2
      ensures Issuable(old(assets[..]), key, name) ==> (Valid() <==> 0 <= n <= MAX_INT64)
      ensures !Issuable(old(assets[..]), key, name) ==>
                Valid() && issued == 0 && unchanged(assets, flags, lists, lists.first, lists.next)
      ensures Issuable(old(assets[..]), key, name) ==>
                && issued == n
                && Issued(old(assets[..]), assets[..], Issuance(key, name, decimals, unit), i, manager, n, j, k)
                && assets[..] == old(assets[..])[i := Issuance(key, name, decimals, unit)]
                                   [j := Ownership(key, manager, i, n)][k := Possession(key, manager, j, n)]
      ensures Issuable(old(assets[..]), key, name) ==>
                var h := Holding(key, name, key, manager, key, manager);
                h !in Ledger(old(assets[..])) && Ledger(assets[..]) == Ledger(old(assets[..]))[h := n]
      ensures Issuable(old(assets[..]), key, name) ==> Children(assets[..], i) == n
      ensures forall a: nat :: a < assets.Length && old(assets[a]).Issuance? ==>
                assets[a] == old(assets[a]) && Children(assets[..], a) == Children(old(assets[..]), a)
    {
      ghost var t, f, first, next := assets[..], flags[..], lists.first[..], lists.next[..];
      var a := Issuance(key, name, decimals, unit);
      IssueProbeStops(t, a);
      IssuableFields(t, key, name);
      j, k := 0, 0;
      i := Probe(assets, Home(key, assets.Length), TheRecord(a));
      if !assets[i].Empty? {
        return 0, i, 0, 0;
      }
      ProbeMiss(t, Home(key, |t|), TheRecord(a), i);
      assert Issuable(t, key, name);
      j, k := WriteIssue(a, i, manager, n);
      ghost var issuances := lists.issuancesFirst;
      SetFlags(i, j, k, k);
      assert flags[..] == f[i := true][j := true][k := true];
      ListIssue(i, j, k);
      issued := n;
      IssueKeeps(hash, t, assets[..], f, flags[..], digests[..], depth, issuances, first, next,
                 lists.first[..], lists.next[..], a, i, manager, n, j, k);
      IssueEffect(t, assets[..], a, i, manager, n, j, k);
    }

    method ListIssue(i: nat, j: nat, k: nat)
      requires Separate() && i < assets.Length && j < assets.Length && k < assets.Length
      modifies lists, lists.first, lists.next
      ensures lists.issuancesFirst == i && lists.first[..] == old(lists.first[..])[i := j][j := k]
      ensures var first, next := old(lists.first[..]), old(lists.next[..]);
              lists.next[..] == next[i := old(lists.issuancesFirst)][j := first[i]][k := first[i := j][j]]
    {
      lists.AddIssuance(i);
      lists.AddChild(i, j);
      lists.AddChild(j, k);
    }

    /** Writes the issuance at `i` and the two records that follow it. */
    method WriteIssue(a: Record, i: nat, manager: nat, n: int) returns (j: nat, k: nat)
      requires Separate() && Shape(assets[..]) && a.Issuance? && |FreeSlots(assets[..])| >= 3
      requires StopsAt(assets[..], Home(a.key, assets.Length), TheRecord(a), i) && assets[i].Empty?
      modifies assets
      ensures Issued(old(assets[..]), assets[..], a, i, manager, n, j, k)
    {
      ghost var t := assets[..];
      assets[i] := a;
      InsertFree(t, i, a);
      FreeSlotStops(assets[..], FreeSlot);
      j := Probe(assets, if i + 1 == assets.Length then 0 else i + 1, FreeSlot);
      ghost var t1 := assets[..];
      assets[j] := Ownership(a.key, manager, i, n);
      InsertFree(t1, j, assets[j]);
      FreeSlotStops(assets[..], FreeSlot);
      k := Probe(assets, if j + 1 == assets.Length then 0 else j + 1, FreeSlot);
      assets[k] := Possession(a.key, manager, j, n);
      ProbesAllowIssue(t, a, i, manager, n, j, k);
    }

    // ----- Digest -----

    /** `getUniverseDigest`: the root of a from-scratch tree over the records. */
    method GetUniverseDigest() returns (root: D)
      requires Valid()
      modifies flags, digests
      ensures Valid() && AllCurrent(hash, assets[..], digests[..], depth)
      ensures root == Node(hash, assets[..], depth, depth, 0)
      ensures forall i: nat :: i < flags.Length ==> !flags[i]
    {
      root := UpdateTree(hash, assets, flags, digests, depth);
    }

    // ----- End of epoch -----

    /** Places the possession in slot `i`, with its ownership and issuance, in the new table. */
    method PlacePossession(reorg: array<Record>, i: nat, ghost m: map<nat, nat>)
      returns (ghost ia: nat, ghost io: nat, ghost ip: nat)
      requires reorg != assets && reorg.Length == assets.Length && Shape(assets[..]) && Copy(assets[..], reorg[..], m)
      requires i < assets.Length && assets[i].Possession? && i !in m
      modifies reorg
      ensures Probed(assets[..], old(reorg[..]), i, ia, io, ip)
      ensures LinkedAt(assets[..], i) && LinkedAt(assets[..], assets[i].ownership)
      ensures reorg[..] == Placed(assets[..], old(reorg[..]), i, ia, io, ip)
    {
      ghost var t, r := assets[..], reorg[..];
      assert LinkedAt(t, i);
      var o := assets[assets[i].ownership];
      assert LinkedAt(t, t[i].ownership);
      var a := assets[o.issuance];
      CopyProbeStops(t, r, m, o.issuance, TheIssuance(a.key, a.name));
      var issuance := Probe(reorg, Home(a.key, reorg.Length), TheIssuance(a.key, a.name));
      PutCopy(t, r, m, o.issuance, TheIssuance(a.key, a.name), issuance);
      PutInPlace(reorg, issuance, a);

      var co := Ownership(o.key, o.manager, issuance, 0);
      ghost var m1, r1 := m[o.issuance := issuance], reorg[..];
      CopyProbeStops(t, r1, m1, t[i].ownership, TheRecord(co));
      var ownership := Probe(reorg, Home(o.key, reorg.Length), TheRecord(co));
      PutCopy(t, r1, m1, t[i].ownership, TheRecord(co), ownership);
      PutInPlace(reorg, ownership, co);
      ghost var m2, r2 := m1[t[i].ownership := ownership], reorg[..];
      assert CopiedAt(t, r2, m2, t[i].ownership);
      CopyAddShares(t, r2, m2, ownership, t[i].shares);
      AddInPlace(reorg, ownership, assets[i].shares);

      var cp := Possession(assets[i].key, assets[i].manager, ownership, 0);
      CopyProbeStops(t, reorg[..], m2, i, TheRecord(cp));
      var possession := Probe(reorg, Home(assets[i].key, reorg.Length), TheRecord(cp));
      ia, io, ip := issuance, ownership, possession;
      PutInPlace(reorg, possession, cp);
      AddInPlace(reorg, possession, assets[i].shares);
    }

    /** `assetsEndEpoch`: rebuilds the table without the records that stand for no shares. */
    method AssetsEndEpoch() returns (ghost m: map<nat, nat>)
      requires Valid()
      modifies assets, flags, lists, lists.first, lists.next
      ensures Valid()
      ensures Ledger(assets[..]) == Positive(Ledger(old(assets[..])))
      ensures Copy(old(assets[..]), assets[..], m)
      ensures forall x: nat :: x < assets.Length ==>
                (x in m ==> m[x] < assets.Length) && Compacts(old(assets[..]), assets[..], m, x)
    {
      var reorg: array<Record>;
      reorg, m := BuildReorg();
      CopyBack(reorg);
      lists.Rebuild(assets);
      AllFlaggedFresh(hash, assets[..], flags[..], digests[..], depth);
    }

    /** Scans the old table and places every possession with shares in a fresh one. */
    method BuildReorg() returns (reorg: array<Record>, ghost m: map<nat, nat>)
      requires Good(assets[..])
      ensures fresh(reorg) && reorg.Length == assets.Length
      ensures Good(reorg[..]) && Ledger(reorg[..]) == Positive(Ledger(assets[..])) && Copy(assets[..], reorg[..], m)
      ensures forall x: nat :: x < assets.Length ==>
                (x in m ==> m[x] < reorg.Length) && Compacts(assets[..], reorg[..], m, x)
    {
      reorg := new Record[assets.Length](_ => Empty);
      ghost var t := assets[..];
      m := map[];
      StartRebuild(t, reorg[..]);
      for i := 0 to assets.Length
        invariant Rebuilding(t, reorg[..], m, i)
      {
        m := ReorgStep(reorg, i, t, m);
      }
      Rebuilt(t, reorg[..], m);
    }

    method ReorgStep(reorg: array<Record>, i: nat, ghost t: Table, ghost m: map<nat, nat>)
      returns (ghost m': map<nat, nat>)
      requires reorg != assets && i < assets.Length && assets[..] == t && Rebuilding(t, reorg[..], m, i)
      modifies reorg
      ensures Rebuilding(t, reorg[..], m', i + 1)
    {
      if assets[i].Possession? && assets[i].shares > 0 {
        ghost var r := reorg[..];
        assert SumsAt(t, r, m, i, i);
        ghost var ia, io, ip := PlacePossession(reorg, i, m);
        m' := Placement(t, m, i, ia, io, ip);
        PlaceStep(t, r, m, i, ia, io, ip, reorg[..], m');
      } else {
        m' := m;
        SkipStep(t, reorg[..], m, i);
      }
    }

    /** Copies the new table over the old one and flags every record. */
    method CopyBack(reorg: array<Record>)
      requires reorg != assets && reorg.Length == assets.Length == flags.Length && assets as object != flags
      requires reorg as object != flags
      modifies assets, flags
      ensures assets[..] == reorg[..] && reorg[..] == old(reorg[..])
      ensures forall i: nat :: i < flags.Length ==> flags[i]
    {
      for i := 0 to assets.Length
        invariant forall j: nat :: j < i ==> assets[j] == reorg[j]
        invariant reorg[..] == old(reorg[..])
      {
        assets[i] := reorg[i];
      }
      for i := 0 to flags.Length
        invariant assets[..] == reorg[..] == old(reorg[..])
        invariant forall j: nat :: j < i ==> flags[j]
      {
        flags[i] := true;
      }
    }
  }

  /** An issue that breaks the invariant: minus one share of any asset, in a new universe. */
  method NegativeIssue<D(!new)>(depth: nat, hash: Hash<Record, D>, zero: D, key: PublicKey, name: nat, manager: nat)
    returns (u: Universe<D>, issued: int)
    requires depth >= 6 && Pow2(depth) < NO_INDEX
    ensures issued == -1 && u.Separate() && Shape(u.assets[..]) && !u.Valid()
    ensures Ledger(u.assets[..]) == map[Holding(key, name, key, manager, key, manager) := -1]
  {
    u := new Universe(depth, hash, zero);
    EmptySlots(u.assets[..]);
    var i, j, k;
    issued, i, j, k := u.IssueAsset(key, name, 0, 0, -1, manager);
  }

  /** No issuance of this name by an issuer with the same low 192 bits exists. */
  ghost predicate Issuable(t: Table, key: PublicKey, name: nat) {
    forall i: nat :: i < |t| ==> !SameIdentity(t[i], Issuance(key, name, 0, 0))
  }

  /** In the fields of the records: the name, and the three low words of the issuer's key. */
  lemma IssuableFields(t: Table, key: PublicKey, name: nat)
    ensures !Issuable(t, key, name) <==>
              exists i: nat :: i < |t| && t[i].Issuance? && t[i].name == name
                && t[i].key.u0 == key.u0 && t[i].key.u1 == key.u1 && t[i].key.u2 == key.u2
  {
    if !Issuable(t, key, name) {
      var i: nat :| i < |t| && SameIdentity(t[i], Issuance(key, name, 0, 0));
      assert t[i].Issuance? && t[i].name == name;
    }
  }

  lemma IssueProbeStops(t: Table, a: Record)
    requires a.Issuance? && (Issuable(t, a.key, a.name) ==> |FreeSlots(t)| >= 3)
    ensures CanStop(t, TheRecord(a))
  {
    if Issuable(t, a.key, a.name) {
      FreeSlotStops(t, TheRecord(a));
    } else {
      var i: nat :| i < |t| && SameIdentity(t[i], Issuance(a.key, a.name, 0, 0));
      assert Stops(TheRecord(a), t[i]);
    }
  }

  /** The effect of an issue as its callers see it. */
  lemma {:induction false} IssueEffect(t: Table, t': Table, a: Record, i: nat, manager: nat, n: int, j: nat, k: nat)
    requires Good(t) && Issued(t, t', a, i, manager, n, j, k)
    ensures Shape(t') && Children(t', i) == n
    ensures var h := Holding(a.key, a.name, a.key, manager, a.key, manager);
            h !in Ledger(t) && Ledger(t') == Ledger(t)[h := n]
    ensures forall x: nat :: x < |t| && t[x].Issuance? ==> t'[x] == t[x] && Children(t', x) == Children(t, x)
  {
    IssueShape(t, t', a, i, manager, n, j, k);
    IssueLedger(t, t', a, i, manager, n, j, k);
    IssueGood(t, t', a, i, manager, n, j, k);
  }

  /** The effect of a transfer as its callers see it. */
  lemma {:induction false} TransferEffect(t: Table, t': Table, so: nat, sp: nat, ro: Record, do: nat, rp: Record,
                                          dp: nat, n: int)
    requires Good(t) && Transferred(t, t', so, sp, ro, do, rp, dp, n)
    ensures Shape(t') && HoldingOf(t, sp) in Ledger(t)
    ensures Ledger(t')
              == MoveHolding(Ledger(t), HoldingOf(t, sp), Destination(t, so, ro.key, ro.manager, rp.key, rp.manager), n)
    ensures forall a: nat :: a < |t| && t[a].Issuance? ==> t'[a] == t[a] && Children(t', a) == Children(t, a)
  {
    TransferLedger(t, t', so, sp, ro, do, rp, dp, n);
    forall a: nat | a < |t| && t[a].Issuance? ensures t'[a] == t[a] && Children(t', a) == Children(t, a) {
      TransferTotals(t, t', so, sp, ro, do, rp, dp, n, a);
    }
  }
}
