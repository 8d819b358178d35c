/** What issuing, transferring and burning do to a table, and that they keep it good. */
module AssetMoves {
  import opened Remainders
  import opened AssetTable

  // ----- Moving shares from one record to another of the same kind -----

  ghost function AddShares(t: Table, i: nat, n: int): Table
    requires i < |t|
  {
    t[i := WithShares(t[i], SharesOf(t[i]) + n)]
  }

  lemma AddSharesShape(t: Table, i: nat, n: int)
    requires Shape(t) && i < |t| && (t[i].Ownership? || t[i].Possession?)
    ensures var t' := AddShares(t, i, n); Shape(t') && Extends(t, t') && FreeSlots(t') == FreeSlots(t)
  {
    SetSharesShape(t, i, SharesOf(t[i]) + n);
    SharesKeepFree(t, i, SharesOf(t[i]) + n);
  }

  /** Changing the shares of a possession changes its ledger entry only. */
  lemma AddSharesLedger(t: Table, i: nat, n: int)
    requires Shape(t) && i < |t| && t[i].Possession?
    ensures var t' := AddShares(t, i, n);
            && Shape(t') && HoldingOf(t, i) in Ledger(t) && Ledger(t)[HoldingOf(t, i)] == t[i].shares
            && Ledger(t') == Ledger(t)[HoldingOf(t, i) := t[i].shares + n]
  {
    LedgerAt(t, i);
    SetSharesLedger(t, i, t[i].shares + n);
  }

  /** Changing the shares of an ownership changes no ledger entry and no holding. */
  lemma AddSharesOwner(t: Table, i: nat, n: int)
    requires Shape(t) && i < |t| && t[i].Ownership?
    ensures var t' := AddShares(t, i, n); Shape(t') && Extends(t, t') && Ledger(t') == Ledger(t)
  {
    SetSharesShape(t, i, t[i].shares + n);
    SetSharesLedger(t, i, t[i].shares + n);
  }

  /** Debits `src`, then credits the record like `r` at `dst`, which is created if the slot is empty. */
  ghost function MoveTo(t: Table, src: nat, dst: nat, r: Record, n: int): Table
    requires src < |t| && dst < |t|
  {
    var t1 := AddShares(t, src, -n);
    var t2 := if t1[dst].Empty? then t1[dst := r] else t1;
    AddShares(t2, dst, n)
  }

  /** `r` has no shares yet, is of the kind of `src`, and `dst` is its slot. */
  ghost predicate CanMove(t: Table, src: nat, dst: nat, r: Record) {
    && src < |t| && dst < |t|
    && ((t[src].Ownership? && r.Ownership?) || (t[src].Possession? && r.Possession?)) && r.shares == 0
    && LinkOk(t, r)
    && (if t[dst].Empty? then CanInsert(t, dst, r) else SameIdentity(t[dst], r))
  }

  /** A probe for `r` that has stopped at `dst` allows the move. */
  lemma ProbeAllowsMove(t: Table, src: nat, dst: nat, r: Record)
    requires Shape(t) && src < |t| && !r.Empty? && StopsAt(t, Home(r.key, |t|), TheRecord(r), dst)
    requires (t[src].Ownership? && r.Ownership?) || (t[src].Possession? && r.Possession?)
    requires r.shares == 0 && LinkOk(t, r)
    ensures CanMove(t, src, dst, r)
  {
    if t[dst].Empty? {
      ProbeMiss(t, Home(r.key, |t|), TheRecord(r), dst);
      forall j: nat | j < |t| ensures !SameIdentity(t[j], r) { assert !Matches(TheRecord(r), t[j]); }
    }
  }

  /** The insertion of a missing destination record does not depend on the debit. */
  lemma {:induction false} DebitKeepsRoom(t: Table, src: nat, dst: nat, r: Record, n: int)
    requires Shape(t) && CanMove(t, src, dst, r) && t[dst].Empty?
    ensures Shape(AddShares(t, src, n)) && CanInsert(AddShares(t, src, n), dst, r)
  {
    SetSharesShape(t, src, SharesOf(t[src]) + n);
  }

  lemma {:induction false} MoveShape(t: Table, src: nat, dst: nat, r: Record, n: int)
    requires Shape(t) && CanMove(t, src, dst, r)
    ensures var t' := MoveTo(t, src, dst, r, n); Shape(t') && Extends(t, t')
  {
    var t1 := AddShares(t, src, -n);
    SetSharesShape(t, src, SharesOf(t[src]) - n);
    if t1[dst].Empty? {
      DebitKeepsRoom(t, src, dst, r, -n);
      InsertShape(t1, dst, r);
    }
    var t2 := if t1[dst].Empty? then t1[dst := r] else t1;
    SetSharesShape(t2, dst, SharesOf(t2[dst]) + n);
  }

  ghost function Delta(b: bool, n: int): int { if b then n else 0 }

  /** Every record keeps its kind and links; share counts change at the two ends only. */
  lemma MoveRecords(t: Table, src: nat, dst: nat, r: Record, n: int, i: nat)
    requires Shape(t) && CanMove(t, src, dst, r) && i < |t|
    ensures var t' := MoveTo(t, src, dst, r, n);
            && SharesOf(t'[i]) == SharesOf(t[i]) - Delta(i == src, n) + Delta(i == dst, n)
            && (i != dst || !t[i].Empty? ==> t'[i] == WithShares(t[i], SharesOf(t'[i])))
            && (i == dst && t[i].Empty? ==> t'[i] == WithShares(r, n))
            && (i != src && i != dst ==> t'[i] == t[i])
  {
  }

  /** The sums below a record move with its children. */
  lemma MoveChildren(t: Table, src: nat, dst: nat, r: Record, n: int, p: nat)
    requires Shape(t) && CanMove(t, src, dst, r)
    ensures Children(MoveTo(t, src, dst, r, n), p)
         == Children(t, p) - Delta(Parent(t[src]) == p, n) + Delta(Parent(r) == p, n)
  {
    var t1 := AddShares(t, src, -n);
    ChildrenUpdate(t, src, t1[src], p);
    CreditChildren(t1, dst, r, n, p);
  }

  lemma CreditChildren(t: Table, dst: nat, r: Record, n: int, p: nat)
    requires dst < |t| && SharesOf(r) == 0 && (r.Ownership? || r.Possession?)
    requires t[dst].Empty? || ((t[dst].Ownership? || t[dst].Possession?) && Parent(t[dst]) == Parent(r))
    ensures var t2 := if t[dst].Empty? then t[dst := r] else t;
            Children(AddShares(t2, dst, n), p) == Children(t, p) + Delta(Parent(r) == p, n)
  {
    var t2 := if t[dst].Empty? then t[dst := r] else t;
    ChildrenUpdate(t, dst, t2[dst], p);
    assert t2 == t[dst := t2[dst]];
    ChildrenUpdate(t2, dst, WithShares(t2[dst], SharesOf(t2[dst]) + n), p);
  }

  /** On the ledger: `n` shares leave one holding and arrive at another. */
  ghost function MoveHolding(l: map<Holding, int>, from: Holding, to: Holding, n: int): map<Holding, int>
    requires from in l
  {
    var l1 := l[from := l[from] - n];
    l1[to := (if to in l1 then l1[to] else 0) + n]
  }

  /** Crediting a possession, created first if its slot is empty. */
  ghost function CreditTo(t: Table, dst: nat, r: Record, n: int): Table
    requires dst < |t|
  {
    AddShares(if t[dst].Empty? then t[dst := r] else t, dst, n)
  }

  lemma {:induction false} CreditNew(t: Table, dst: nat, r: Record, n: int)
    requires Shape(t) && r.Possession? && r.shares == 0 && CanInsert(t, dst, r)
    ensures var t' := CreditTo(t, dst, r, n);
            && Shape(t') && t'[dst].Possession? && HoldingOf(t', dst) !in Ledger(t)
            && Ledger(t') == Ledger(t)[HoldingOf(t', dst) := n]
  {
    assert CreditTo(t, dst, r, n) == t[dst := WithShares(r, n)];
    InsertLedger(t, dst, WithShares(r, n));
  }

  lemma CreditOld(t: Table, dst: nat, r: Record, n: int)
    requires Shape(t) && dst < |t| && t[dst].Possession?
    ensures var t' := CreditTo(t, dst, r, n);
            && Shape(t') && t'[dst].Possession? && HoldingOf(t', dst) == HoldingOf(t, dst)
            && Ledger(t') == Ledger(t)[HoldingOf(t, dst) := t[dst].shares + n]
  {
    SetSharesShape(t, dst, t[dst].shares + n);
    SetSharesLedger(t, dst, t[dst].shares + n);
    HoldingKept(t, CreditTo(t, dst, r, n), dst);
  }

  lemma {:induction false} CreditLedger(t: Table, dst: nat, r: Record, n: int)
    requires Shape(t) && dst < |t| && r.Possession? && r.shares == 0
    requires if t[dst].Empty? then CanInsert(t, dst, r) else SameIdentity(t[dst], r)
    ensures var t' := CreditTo(t, dst, r, n);
            && Shape(t') && t'[dst].Possession?
            && var l, h := Ledger(t), HoldingOf(t', dst); Ledger(t') == l[h := (if h in l then l[h] else 0) + n]
  {
    if t[dst].Empty? {
      CreditNew(t, dst, r, n);
    } else {
      CreditOld(t, dst, r, n);
      LedgerAt(t, dst);
    }
  }

  lemma {:induction false} MoveLedgerPossession(t: Table, src: nat, dst: nat, r: Record, n: int)
    requires Shape(t) && CanMove(t, src, dst, r) && r.Possession?
    ensures var t' := MoveTo(t, src, dst, r, n);
            && Shape(t') && t'[dst].Possession? && HoldingOf(t, src) in Ledger(t)
            && Ledger(t') == MoveHolding(Ledger(t), HoldingOf(t, src), HoldingOf(t', dst), n)
  {
    var t1 := AddShares(t, src, -n);
    AddSharesLedger(t, src, -n);
    if t1[dst].Empty? { DebitKeepsRoom(t, src, dst, r, -n); }
    CreditLedger(t1, dst, r, n);
  }

  lemma {:induction false} MoveLedgerOwnership(t: Table, src: nat, dst: nat, r: Record, n: int)
    requires Shape(t) && CanMove(t, src, dst, r) && r.Ownership?
    ensures var t' := MoveTo(t, src, dst, r, n); Shape(t') && Ledger(t') == Ledger(t)
  {
    var t1 := AddShares(t, src, -n);
    SetSharesLedger(t, src, SharesOf(t[src]) - n);
    if t1[dst].Empty? {
      DebitKeepsRoom(t, src, dst, r, -n);
      InsertLedger(t1, dst, r);
    }
    var t2 := if t1[dst].Empty? then t1[dst := r] else t1;
    SetSharesLedger(t2, dst, SharesOf(t2[dst]) + n);
  }

  // ----- A transfer: both rights move together -----

  /** What both transfer functions check before they start. */
  predicate SourceOk(t: Table, so: nat, sp: nat, n: int)
    requires so < |t| && sp < |t|
  {
    && t[so].Ownership? && t[so].shares >= n
    && t[sp].Possession? && t[sp].shares >= n
    && t[sp].ownership == so
  }

  /** The ownership record a transfer credits. */
  function OwnerGoal(t: Table, so: nat, key: PublicKey, manager: nat): (r: Record)
    requires so < |t| && t[so].Ownership?
  {
    Ownership(key, manager, t[so].issuance, 0)
  }

  /** The holding a transfer credits. */
  ghost function Destination(t: Table, so: nat, owner: PublicKey, ownerManager: nat,
                             possessor: PublicKey, possessorManager: nat): Holding
    requires Linked(t) && so < |t| && t[so].Ownership?
  {
    assert LinkedAt(t, so);
    var a := t[t[so].issuance];
    Holding(a.key, a.name, owner, ownerManager, possessor, possessorManager)
  }

  /** `t'` is `t` after `n` shares moved from (`so`, `sp`) to (`ro` at `do`, `rp` at `dp`). */
  ghost predicate Transferred(t: Table, t': Table, so: nat, sp: nat, ro: Record, do: nat, rp: Record, dp: nat, n: int) {
    && so < |t| && sp < |t| && n > 0 && SourceOk(t, so, sp, n)
    && CanMove(t, so, do, ro) && ro.Ownership? && Parent(ro) == Parent(t[so])
    && var t3 := MoveTo(t, so, do, ro, n);
    && CanMove(t3, sp, dp, rp) && rp.Possession? && Parent(rp) == do
    && t' == MoveTo(t3, sp, dp, rp, n)
  }

  /** Nothing belongs to a record that is not an issuance or ownership. */
  lemma {:induction false} NoChildren(t: Table, s: Table, p: nat)
    requires Linked(t) && p < |t| && !t[p].Issuance? && !t[p].Ownership?
    requires |s| <= |t| && s == t[..|s|]
    ensures Children(s, p) == 0
  {
    if |s| > 0 {
      NoChildren(t, s[..|s| - 1], p);
      assert LinkedAt(t, |s| - 1);
    }
  }

  lemma {:induction false} TransferShape(t: Table, t': Table, so: nat, sp: nat, ro: Record, do: nat, rp: Record,
                                         dp: nat, n: int)
    requires Good(t) && Transferred(t, t', so, sp, ro, do, rp, dp, n)
    ensures Shape(t') && Extends(t, t')
  {
    var t3 := MoveTo(t, so, do, ro, n);
    MoveShape(t, so, do, ro, n);
    MoveShape(t3, sp, dp, rp, n);
    forall i: nat | i < |t| && !t[i].Empty? ensures t'[i] == WithShares(t[i], SharesOf(t'[i])) {
      assert t3[i] == WithShares(t[i], SharesOf(t3[i]));
    }
  }

  lemma TransferShares(t: Table, t': Table, so: nat, sp: nat, ro: Record, do: nat, rp: Record, dp: nat, n: int, i: nat)
    requires Good(t) && Transferred(t, t', so, sp, ro, do, rp, dp, n) && i < |t|
    ensures SharesOf(t'[i])
              == SharesOf(t[i]) - Delta(i == so, n) + Delta(i == do, n) - Delta(i == sp, n) + Delta(i == dp, n)
    ensures t'[i].Ownership? ==> i != sp && i != dp
    ensures i != so && i != do && i != sp && i != dp ==> t'[i] == t[i]
    ensures t'[i].Issuance? ==> t[i].Issuance?
    ensures t'[i].Ownership? && !t[i].Ownership? ==> t[i].Empty? && i == do
  {
    var t3 := MoveTo(t, so, do, ro, n);
    MoveShape(t, so, do, ro, n);
    MoveRecords(t, so, do, ro, n, i);
    MoveRecords(t3, sp, dp, rp, n, i);
    MoveRecords(t, so, do, ro, n, sp);
  }

  lemma {:induction false} TransferChildren(t: Table, t': Table, so: nat, sp: nat, ro: Record, do: nat, rp: Record,
                                            dp: nat, n: int, p: nat)
    requires Good(t) && Transferred(t, t', so, sp, ro, do, rp, dp, n)
    ensures Children(t', p) == Children(t, p) - Delta(p == so, n) + Delta(p == do, n)
  {
    var t3 := MoveTo(t, so, do, ro, n);
    MoveShape(t, so, do, ro, n);
    MoveChildren(t, so, do, ro, n, p);
    MoveRecords(t, so, do, ro, n, sp);
    MoveChildren(t3, sp, dp, rp, n, p);
  }

  /** A transfer keeps the whole invariant, also when source and destination coincide. */
  lemma {:induction false} TransferGood(t: Table, t': Table, so: nat, sp: nat, ro: Record, do: nat, rp: Record,
                                        dp: nat, n: int)
    requires Good(t) && Transferred(t, t', so, sp, ro, do, rp, dp, n)
    ensures Good(t')
  {
    TransferShape(t, t', so, sp, ro, do, rp, dp, n);
    forall i: nat | i < |t'| ensures SharesOf(t'[i]) >= 0 && BalancedAt(t', i) {
      TransferShares(t, t', so, sp, ro, do, rp, dp, n, i);
      TransferChildren(t, t', so, sp, ro, do, rp, dp, n, i);
      assert BalancedAt(t, i) && SharesOf(t[i]) >= 0;
      if t[i].Empty? { NoChildren(t, t, i); }
    }
  }

  /** A transfer leaves the total of every issuance as it was. */
  lemma {:induction false} TransferTotals(t: Table, t': Table, so: nat, sp: nat, ro: Record, do: nat, rp: Record,
                                          dp: nat, n: int, a: nat)
    requires Good(t) && Transferred(t, t', so, sp, ro, do, rp, dp, n) && a < |t| && t[a].Issuance?
    ensures t'[a] == t[a] && Children(t', a) == Children(t, a)
  {
    TransferShares(t, t', so, sp, ro, do, rp, dp, n, a);
    TransferChildren(t, t', so, sp, ro, do, rp, dp, n, a);
    MoveRecords(t, so, do, ro, n, a);
  }

  /** On the ledger a transfer moves `n` shares from one holding to another and nothing else. */
  lemma {:induction false} TransferLedger(t: Table, t': Table, so: nat, sp: nat, ro: Record, do: nat, rp: Record,
                                          dp: nat, n: int)
    requires Good(t) && Transferred(t, t', so, sp, ro, do, rp, dp, n)
    ensures Shape(t') && HoldingOf(t, sp) in Ledger(t)
    ensures Ledger(t') == MoveHolding(Ledger(t), HoldingOf(t, sp),
                                      Destination(t, so, ro.key, ro.manager, rp.key, rp.manager), n)
  {
    var t3 := MoveTo(t, so, do, ro, n);
    TransferShape(t, t', so, sp, ro, do, rp, dp, n);
    MoveShape(t, so, do, ro, n);
    MoveLedgerOwnership(t, so, do, ro, n);
    HoldingKept(t, t3, sp);
    MoveLedgerPossession(t3, sp, dp, rp, n);
    DestinationReached(t, t', so, sp, ro, do, rp, dp, n);
  }

  lemma DestinationReached(t: Table, t': Table, so: nat, sp: nat, ro: Record, do: nat, rp: Record, dp: nat, n: int)
    requires Good(t) && Transferred(t, t', so, sp, ro, do, rp, dp, n) && Shape(t')
    ensures t'[dp].Possession?
    ensures HoldingOf(t', dp) == Destination(t, so, ro.key, ro.manager, rp.key, rp.manager)
  {
    var t3 := MoveTo(t, so, do, ro, n);
    MoveShape(t, so, do, ro, n);
    MoveRecords(t, so, do, ro, n, do);
    MoveRecords(t3, sp, dp, rp, n, dp);
    MoveRecords(t3, sp, dp, rp, n, do);
    assert LinkedAt(t, so);
    var a := t[so].issuance;
    MoveRecords(t, so, do, ro, n, a);
    MoveRecords(t3, sp, dp, rp, n, a);
  }

  // ----- Burning -----

  ghost function Burned(t: Table, so: nat, sp: nat, n: int): Table
    requires so < |t| && sp < |t|
  {
    AddShares(AddShares(t, so, -n), sp, -n)
  }

  lemma BurnChildren(t: Table, so: nat, sp: nat, n: int, p: nat)
    requires so < |t| && sp < |t| && so != sp && SourceOk(t, so, sp, n)
    ensures Children(Burned(t, so, sp, n), p) == Children(t, p) - Delta(p == t[so].issuance, n) - Delta(p == so, n)
  {
    var t1 := AddShares(t, so, -n);
    ChildrenUpdate(t, so, t1[so], p);
    ChildrenUpdate(t1, sp, WithShares(t1[sp], SharesOf(t1[sp]) - n), p);
  }

  lemma BurnShape(t: Table, so: nat, sp: nat, n: int)
    requires Shape(t) && so < |t| && sp < |t| && SourceOk(t, so, sp, n)
    ensures Shape(Burned(t, so, sp, n)) && Extends(t, Burned(t, so, sp, n))
  {
    var t1 := AddShares(t, so, -n);
    SetSharesShape(t, so, SharesOf(t[so]) - n);
    SetSharesShape(t1, sp, SharesOf(t1[sp]) - n);
  }

  /** Burning keeps the invariant and takes exactly `n` from the issuance's total. */
  lemma {:induction false} BurnGood(t: Table, so: nat, sp: nat, n: int)
    requires Good(t) && so < |t| && sp < |t| && n > 0 && SourceOk(t, so, sp, n)
    ensures Good(Burned(t, so, sp, n))
    ensures forall a: nat :: a < |t| && t[a].Issuance? ==>
              Children(Burned(t, so, sp, n), a) == Children(t, a) - Delta(a == t[so].issuance, n)
  {
    var t' := Burned(t, so, sp, n);
    BurnShape(t, so, sp, n);
    forall i: nat | i < |t'|
      ensures SharesOf(t'[i]) >= 0 && BalancedAt(t', i)
      ensures t[i].Issuance? ==> Children(t', i) == Children(t, i) - Delta(i == t[so].issuance, n)
    {
      BurnChildren(t, so, sp, n, i);
      assert BalancedAt(t, i) && SharesOf(t[i]) >= 0 && LinkedAt(t, so);
    }
  }

  /** On the ledger, burning takes `n` from one holding. */
  lemma {:induction false} BurnLedger(t: Table, so: nat, sp: nat, n: int)
    requires Good(t) && so < |t| && sp < |t| && SourceOk(t, so, sp, n)
    ensures Shape(Burned(t, so, sp, n)) && HoldingOf(t, sp) in Ledger(t)
    ensures Ledger(Burned(t, so, sp, n)) == Ledger(t)[HoldingOf(t, sp) := Ledger(t)[HoldingOf(t, sp)] - n]
  {
    var t1 := AddShares(t, so, -n);
    AddSharesOwner(t, so, -n);
    HoldingKept(t, t1, sp);
    AddSharesLedger(t1, sp, -n);
  }

  // ----- Issuing -----

  /** `t'` is `t` with a new issuance at `i`, all of whose shares the issuer owns (`j`) and possesses (`k`). */
  ghost predicate Issued(t: Table, t': Table, a: Record, i: nat, manager: nat, n: int, j: nat, k: nat) {
    && a.Issuance? && CanInsert(t, i, a)
    && var t1 := t[i := a];
    var o := Ownership(a.key, manager, i, n);
    && CanInsert(t1, j, o)
    && var t2 := t1[j := o];
    var p := Possession(a.key, manager, j, n);
    && CanInsert(t2, k, p) && t' == t2[k := p]
  }

  /** The first issue: at the low 32 bits of the key, modulo the capacity, and in the two slots that follow. */
  lemma FirstIssueSlots(t: Table, t': Table, a: Record, i: nat, manager: nat, n: int, j: nat, k: nat)
    requires |t| >= 3 && Issued(t, t', a, i, manager, n, j, k) && forall s: nat :: s < |t| ==> t[s].Empty?
    ensures i == a.key.u0 % 0x1_0000_0000 % |t| && j == (i + 1) % |t| && k == (i + 2) % |t|
  {
    var h := Home(a.key, |t|);
    assert t[Slot(h, 0, |t|)].Empty?;
    var t1 := t[i := a];
    assert t1[Slot(h, 1, |t|)].Empty?;
    ModWrap(h + 1, |t|);
    var t2 := t1[j := Ownership(a.key, manager, i, n)];
    assert t2[Slot(h, 2, |t|)].Empty?;
    ModWrap(h + 2, |t|);
  }

  /** A record placed in the first free slot after a reachable one of the same key is reachable. */
  lemma NextFreeReachable(t: Table, h: nat, i: nat, j: nat)
    requires h < |t| && i < |t| && Occupied(t, h, Dist(h, i, |t|)) && !t[i].Empty?
    requires StopsAt(t, Slot(i, 1, |t|), FreeSlot, j)
    ensures Occupied(t, h, Dist(h, j, |t|))
  {
    var di, m := Dist(h, i, |t|), Slot(i, 1, |t|);
    forall e: nat | e < Dist(h, j, |t|) ensures !t[Slot(h, e, |t|)].Empty? {
      if e > di {
        var e' := e - di - 1;
        assert Slot(h, e, |t|) == Slot(m, e', |t|);
        if e' < Dist(m, j, |t|) { assert !Stops(FreeSlot, t[Slot(m, e', |t|)]); }
      } else if e == di {
        assert Slot(h, e, |t|) == i;
      }
    }
  }

  /** The ownership and possession of a fresh record clash with nothing. */
  lemma FreshParentNoClash(t: Table, i: nat, a: Record, t': Table, o: Record)
    requires Shape(t) && CanInsert(t, i, a) && t' == t[i := a] && Parent(o) == i
    ensures forall x: nat :: x < |t| ==> !SameIdentity(t'[x], o)
  {
    forall x: nat | x < |t| ensures !SameIdentity(t'[x], o) {
      assert LinkedAt(t, x);
      assert Parent(a) == i ==> LinkOk(t, a);
    }
  }

  /** The three probes of `issueAsset` end where the three records may be written. */
  lemma ProbesAllowIssue(t: Table, a: Record, i: nat, manager: nat, n: int, j: nat, k: nat)
    requires Shape(t) && a.Issuance? && |t| > 0
    requires StopsAt(t, Home(a.key, |t|), TheRecord(a), i) && t[i].Empty?
    requires var t1 := t[i := a]; StopsAt(t1, Slot(i, 1, |t|), FreeSlot, j)
    requires var t2 := t[i := a][j := Ownership(a.key, manager, i, n)]; StopsAt(t2, Slot(j, 1, |t|), FreeSlot, k)
    ensures Issued(t, t[i := a][j := Ownership(a.key, manager, i, n)][k := Possession(a.key, manager, j, n)],
                   a, i, manager, n, j, k)
  {
    var h := Home(a.key, |t|);
    ProbeMiss(t, h, TheRecord(a), i);
    forall x: nat | x < |t| ensures !SameIdentity(t[x], a) { assert !Matches(TheRecord(a), t[x]); }
    assert CanInsert(t, i, a);
    InsertShape(t, i, a);
    var t1, o := t[i := a], Ownership(a.key, manager, i, n);
    NextFreeReachable(t1, h, i, j);
    FreshParentNoClash(t, i, a, t1, o);
    assert CanInsert(t1, j, o);
    InsertShape(t1, j, o);
    var t2 := t1[j := o];
    NextFreeReachable(t2, h, j, k);
    FreshParentNoClash(t1, j, o, t2, Possession(a.key, manager, j, n));
  }

  lemma {:induction false} IssueShape(t: Table, t': Table, a: Record, i: nat, manager: nat, n: int, j: nat, k: nat)
    requires Shape(t) && Issued(t, t', a, i, manager, n, j, k)
    ensures Shape(t') && Extends(t, t') && i != j && i != k && j != k
    ensures t[i].Empty? && t[j].Empty? && t[k].Empty?
  {
    var t1, o := t[i := a], Ownership(a.key, manager, i, n);
    InsertShape(t, i, a);
    InsertShape(t1, j, o);
    InsertShape(t1[j := o], k, Possession(a.key, manager, j, n));
  }

  lemma {:induction false} IssueChildren(t: Table, t': Table, a: Record, i: nat, manager: nat, n: int, j: nat, k: nat,
                                         p: nat)
    requires Shape(t) && Issued(t, t', a, i, manager, n, j, k)
    ensures Children(t', p) == Children(t, p) + Delta(p == i, n) + Delta(p == j, n)
  {
    IssueShape(t, t', a, i, manager, n, j, k);
    var t1, o := t[i := a], Ownership(a.key, manager, i, n);
    ChildrenUpdate(t, i, a, p);
    ChildrenUpdate(t1, j, o, p);
    ChildrenUpdate(t1[j := o], k, Possession(a.key, manager, j, n), p);
  }

  /** Issuing keeps the invariant exactly for share numbers from 0 to 2^63 - 1; the new issuance has total `n` and
      every other total is unchanged. */
  lemma {:induction false} IssueGood(t: Table, t': Table, a: Record, i: nat, manager: nat, n: int, j: nat, k: nat)
    requires Good(t) && Issued(t, t', a, i, manager, n, j, k)
    ensures Good(t') <==> 0 <= n <= MAX_INT64
    ensures Shape(t') && Children(t', i) == n
    ensures forall x: nat :: x < |t| && t[x].Issuance? ==> Children(t', x) == Children(t, x)
  {
    IssueShape(t, t', a, i, manager, n, j, k);
    NoChildren(t, t, i);
    NoChildren(t, t, j);
    IssueChildren(t, t', a, i, manager, n, j, k, i);
    assert SharesOf(t'[j]) == n && (BalancedAt(t', i) ==> n <= MAX_INT64);
    forall x: nat | x < |t'|
      ensures 0 <= n <= MAX_INT64 ==> SharesOf(t'[x]) >= 0 && BalancedAt(t', x)
      ensures t[x].Issuance? ==> Children(t', x) == Children(t, x)
    {
      IssueChildren(t, t', a, i, manager, n, j, k, x);
      assert BalancedAt(t, x) && SharesOf(t[x]) >= 0;
    }
  }

  /** On the ledger, issuing adds one new holding with all the shares. */
  lemma IssueLedger(t: Table, t': Table, a: Record, i: nat, manager: nat, n: int, j: nat, k: nat)
    requires Shape(t) && Issued(t, t', a, i, manager, n, j, k)
    ensures Shape(t')
    ensures var h := Holding(a.key, a.name, a.key, manager, a.key, manager);
            h !in Ledger(t) && Ledger(t') == Ledger(t)[h := n]
  {
    IssueShape(t, t', a, i, manager, n, j, k);
    var t1, o := t[i := a], Ownership(a.key, manager, i, n);
    InsertLedger(t, i, a);
    InsertLedger(t1, j, o);
    InsertLedger(t1[j := o], k, Possession(a.key, manager, j, n));
  }
}
