/** The asset universe as a value: the records, the open-addressed table that holds
    them, the invariant every operation keeps, and the ledger the table stands for. */
module AssetTable {
  import opened Remainders

  const MAX_INT64: int := 0x7FFF_FFFF_FFFF_FFFF

  /** An `m256i` public key, as its four 64-bit lanes. */
  datatype PublicKey = PublicKey(u0: nat, u1: nat, u2: nat, u3: nat)

  const ZERO_KEY := PublicKey(0, 0, 0, 0)

  /** One `AssetRecord`. An empty slot is all zero bytes, so its share count reads 0.
      `name` is the seven name bytes as a number. */
  datatype Record =
    | Empty
    | Issuance(key: PublicKey, name: nat, decimals: int, unit: nat)
    | Ownership(key: PublicKey, manager: nat, issuance: nat, shares: int)
    | Possession(key: PublicKey, manager: nat, ownership: nat, shares: int)

  type Table = seq<Record>

  // ----- Circular slots -----

  /** Home slot of a key: `key.m256i_u32[0] & (capacity - 1)`. */
  function Home(key: PublicKey, capacity: nat): (h: nat)
    requires capacity > 0
    ensures h < capacity
  {
    (key.u0 % 0x1_0000_0000) % capacity
  }

  /** The slot `d` steps after `h`, wrapping at the end. */
  function Slot(h: nat, d: nat, capacity: nat): (s: nat)
    requires h < capacity && d <= capacity
    ensures s < capacity
  {
    if h + d < capacity then h + d else h + d - capacity
  }

  /** How many steps lead from slot `h` to slot `i`. */
  function Dist(h: nat, i: nat, capacity: nat): (d: nat)
    requires h < capacity && i < capacity
    ensures d < capacity && Slot(h, d, capacity) == i
  {
    if i >= h then i - h else i + capacity - h
  }

  // ----- The table invariant -----

  /** The first `d` slots from `h` are in use. */
  ghost predicate Occupied(t: Table, h: nat, d: nat)
    requires h < |t| && d <= |t|
  {
    forall e: nat :: e < d ==> !t[Slot(h, e, |t|)].Empty?
  }

  /** Record `i` is found by probing from its key's home slot. */
  ghost predicate ReachableAt(t: Table, i: nat)
    requires i < |t|
  {
    t[i].Empty? || Occupied(t, Home(t[i].key, |t|), Dist(Home(t[i].key, |t|), i, |t|))
  }

  ghost predicate Reachable(t: Table) {
    forall i: nat :: i < |t| ==> ReachableAt(t, i)
  }

  /** Index of the record this one belongs to. */
  function Parent(r: Record): (p: int) {
    match r
    case Ownership(_, _, issuance, _) => issuance
    case Possession(_, _, ownership, _) => ownership
    case _ => -1
  }

  ghost predicate LinkOk(t: Table, r: Record) {
    && (r.Ownership? ==> r.issuance < |t| && t[r.issuance].Issuance?)
    && (r.Possession? ==> r.ownership < |t| && t[r.ownership].Ownership?)
  }

  ghost predicate LinkedAt(t: Table, i: nat)
    requires i < |t|
  {
    LinkOk(t, t[i])
  }

  /** Every record belongs to an existing record of the right kind. */
  ghost predicate Linked(t: Table) {
    forall i: nat :: i < |t| ==> LinkedAt(t, i)
  }

  /** Equality in the low 192 bits, which is what makes two issuers clash. */
  predicate SameLow192(a: PublicKey, b: PublicKey) {
    a.u0 == b.u0 && a.u1 == b.u1 && a.u2 == b.u2
  }

  /** Two records with the same identity must not coexist. */
  predicate SameIdentity(a: Record, b: Record) {
    match (a, b)
    case (Issuance(k, n, _, _), Issuance(k', n', _, _)) => SameLow192(k, k') && n == n'
    case (Ownership(k, m, p, _), Ownership(k', m', p', _)) => k == k' && m == m' && p == p'
    case (Possession(k, m, p, _), Possession(k', m', p', _)) => k == k' && m == m' && p == p'
    case _ => false
  }

  ghost predicate Clash(t: Table, i: nat, j: nat)
    requires i < |t| && j < |t|
  {
    SameIdentity(t[i], t[j])
  }

  ghost predicate Unique(t: Table) {
    forall i: nat, j: nat :: i < |t| && j < |t| && Clash(t, i, j) ==> i == j
  }

  /** What probing needs; kept by every single write. */
  ghost predicate Shape(t: Table) {
    |t| > 0 && Reachable(t) && Linked(t) && Unique(t)
  }

  lemma StepsAreRemainder(h: nat, i: nat, capacity: nat)
    requires h < capacity && i < capacity
    ensures Dist(h, i, capacity) == (i - h) % capacity
  {
    ModWrap(i - h, capacity);
  }

  /** Where records lie: counted circularly from the low 32 bits of the key, modulo the capacity, a record comes
      before every free slot. */
  lemma RecordBeforeFree(t: Table, i: nat, s: nat)
    requires Shape(t) && i < |t| && !t[i].Empty? && s < |t| && t[s].Empty?
    ensures var h := t[i].key.u0 % 0x1_0000_0000 % |t|; (i - h) % |t| < (s - h) % |t|
  {
    assert ReachableAt(t, i);
    var h := Home(t[i].key, |t|);
    assert t[Slot(h, Dist(h, s, |t|), |t|)].Empty?;
    StepsAreRemainder(h, i, |t|);
    StepsAreRemainder(h, s, |t|);
  }

  function SharesOf(r: Record): (n: int) {
    if r.Ownership? || r.Possession? then r.shares else 0
  }

  function ChildShares(r: Record, p: int): (n: int) {
    if Parent(r) == p then SharesOf(r) else 0
  }

  /** Shares held by the records that belong to record `p`: the ownerships of an
      issuance, the possessions of an ownership. */
  ghost function Children(t: Table, p: nat): int {
    if |t| == 0 then 0
    else Children(t[..|t| - 1], p) + ChildShares(t[|t| - 1], p)
  }

  ghost predicate NonNegative(t: Table) {
    forall i: nat :: i < |t| ==> SharesOf(t[i]) >= 0
  }

  ghost predicate BalancedAt(t: Table, i: nat)
    requires i < |t|
  {
    && (t[i].Ownership? ==> Children(t, i) == t[i].shares)
    && (t[i].Issuance? ==> Children(t, i) <= MAX_INT64)
  }

  /** Each ownership's shares are the sum of its possessions' shares, and the total of
      an issuance fits a signed 64-bit counter. */
  ghost predicate Balanced(t: Table) {
    forall i: nat :: i < |t| ==> BalancedAt(t, i)
  }

  ghost predicate Good(t: Table) {
    Shape(t) && NonNegative(t) && Balanced(t)
  }

  // ----- The ledger a table stands for -----

  /** A position in an asset: who issued it, who owns it, who possesses it, and the
      contracts that manage the two rights. */
  datatype Holding = Holding(issuer: PublicKey, name: nat,
                             owner: PublicKey, ownerManager: nat,
                             possessor: PublicKey, possessorManager: nat)

  ghost function HoldingOf(t: Table, i: nat): Holding
    requires Linked(t) && i < |t| && t[i].Possession?
  {
    assert LinkedAt(t, i);
    var o := t[t[i].ownership];
    assert LinkedAt(t, t[i].ownership);
    var a := t[o.issuance];
    Holding(a.key, a.name, o.key, o.manager, t[i].key, t[i].manager)
  }

  ghost predicate HoldsAt(t: Table, i: nat, h: Holding)
    requires Linked(t)
  {
    i < |t| && t[i].Possession? && HoldingOf(t, i) == h
  }

  /** No two possessions stand for the same holding. */
  lemma HoldingInjective(t: Table, i: nat, j: nat, h: Holding)
    requires Shape(t) && HoldsAt(t, i, h) && HoldsAt(t, j, h)
    ensures i == j
  {
    var o, o' := t[i].ownership, t[j].ownership;
    assert LinkedAt(t, i) && LinkedAt(t, j);
    assert LinkedAt(t, o) && LinkedAt(t, o');
    assert Clash(t, t[o].issuance, t[o'].issuance);
    assert Clash(t, o, o');
    assert Clash(t, i, j);
  }

  /** The share count of every holding that has a record. */
  ghost function Ledger(t: Table): map<Holding, int>
    requires Shape(t)
  {
    LedgerOf(t, |t|)
  }

  /** ... among the first `n` slots. */
  ghost function LedgerOf(t: Table, n: nat): map<Holding, int>
    requires Linked(t) && n <= |t|
  {
    if n == 0 then map[]
    else if t[n - 1].Possession? then LedgerOf(t, n - 1)[HoldingOf(t, n - 1) := t[n - 1].shares]
    else LedgerOf(t, n - 1)
  }

  lemma {:induction false} LedgerOfAt(t: Table, n: nat, i: nat)
    requires Shape(t) && i < n <= |t| && t[i].Possession?
    ensures HoldingOf(t, i) in LedgerOf(t, n) && LedgerOf(t, n)[HoldingOf(t, i)] == t[i].shares
  {
    if i < n - 1 {
      LedgerOfAt(t, n - 1, i);
      if t[n - 1].Possession? && HoldingOf(t, n - 1) == HoldingOf(t, i) {
        HoldingInjective(t, i, n - 1, HoldingOf(t, i));
      }
    }
  }

  lemma {:induction false} LedgerOfFrom(t: Table, n: nat, h: Holding) returns (i: nat)
    requires Shape(t) && n <= |t| && h in LedgerOf(t, n)
    ensures HoldsAt(t, i, h) && LedgerOf(t, n)[h] == t[i].shares
  {
    if t[n - 1].Possession? && HoldingOf(t, n - 1) == h {
      i := n - 1;
    } else {
      i := LedgerOfFrom(t, n - 1, h);
    }
  }

  /** Every possession is in the ledger with its own share count. */
  lemma LedgerAt(t: Table, i: nat)
    requires Shape(t) && i < |t| && t[i].Possession?
    ensures HoldingOf(t, i) in Ledger(t) && Ledger(t)[HoldingOf(t, i)] == t[i].shares
  {
    LedgerOfAt(t, |t|, i);
  }

  /** Every ledger entry comes from a possession. */
  lemma LedgerFrom(t: Table, h: Holding) returns (i: nat)
    requires Shape(t) && h in Ledger(t)
    ensures HoldsAt(t, i, h) && Ledger(t)[h] == t[i].shares
  {
    i := LedgerOfFrom(t, |t|, h);
  }

  // ----- Probing -----

  /** What a probe looks for, besides an empty slot. */
  datatype Goal =
    | FreeSlot
    | TheIssuance(issuer: PublicKey, name: nat)
    | TheRecord(record: Record)

  predicate Matches(g: Goal, r: Record) {
    match g
    case FreeSlot => false
    case TheIssuance(issuer, name) => r.Issuance? && r.name == name && r.key == issuer
    case TheRecord(record) => SameIdentity(r, record)
  }

  /** The home slot of everything a goal matches. */
  ghost predicate StartsAt(g: Goal, h: nat, capacity: nat)
    requires capacity > 0
  {
    match g
    case FreeSlot => true
    case TheIssuance(issuer, _) => Home(issuer, capacity) == h
    case TheRecord(record) => !record.Empty? && Home(record.key, capacity) == h
  }

  predicate Stops(g: Goal, r: Record) {
    r.Empty? || Matches(g, r)
  }

  /** A probe for `g` ends. */
  ghost predicate CanStop(t: Table, g: Goal) {
    exists i: nat :: i < |t| && Stops(g, t[i])
  }

  /** Slot `i` is where a probe from `h` stops. */
  ghost predicate StopsAt(t: Table, h: nat, g: Goal, i: nat)
    requires h < |t|
  {
    && i < |t| && Stops(g, t[i])
    && forall e: nat :: e < Dist(h, i, |t|) ==> !Stops(g, t[Slot(h, e, |t|)])
  }

  /** A probe that stops at an empty slot has proved that no record matches. */
  lemma ProbeMiss(t: Table, h: nat, g: Goal, i: nat)
    requires h < |t| && Reachable(t) && StartsAt(g, h, |t|) && StopsAt(t, h, g, i) && t[i].Empty?
    ensures forall j: nat :: j < |t| ==> !Matches(g, t[j])
    ensures Occupied(t, h, Dist(h, i, |t|))
  {
    forall j: nat | j < |t| ensures !Matches(g, t[j]) {
      assert ReachableAt(t, j);
      assert Slot(h, Dist(h, i, |t|), |t|) == i && Slot(h, Dist(h, j, |t|), |t|) == j;
    }
  }

  /** At most one record matches. */
  lemma MatchUnique(t: Table, g: Goal, i: nat, j: nat)
    requires Unique(t) && i < |t| && j < |t| && Matches(g, t[i]) && Matches(g, t[j])
    ensures i == j
  {
    assert Clash(t, i, j);
  }

  // ----- Single writes -----

  /** The same record with another share count. */
  function WithShares(r: Record, n: int): (r': Record)
    ensures Parent(r') == Parent(r) && (r.Empty? <==> r'.Empty?)
    ensures forall x :: SameIdentity(r', x) == SameIdentity(r, x)
  {
    match r
    case Ownership(k, m, p, _) => Ownership(k, m, p, n)
    case Possession(k, m, p, _) => Possession(k, m, p, n)
    case _ => r
  }

  /** `t'` has every record of `t` at the same slot, except for share counts. */
  ghost predicate Extends(t: Table, t': Table) {
    |t| == |t'| && forall i: nat :: i < |t| && !t[i].Empty? ==> t'[i] == WithShares(t[i], SharesOf(t'[i]))
  }

  lemma HoldingKept(t: Table, t': Table, i: nat)
    requires Linked(t) && Linked(t') && Extends(t, t') && i < |t| && t[i].Possession?
    ensures t'[i].Possession? && HoldingOf(t', i) == HoldingOf(t, i)
  {
    assert LinkedAt(t, i);
    assert LinkedAt(t, t[i].ownership);
  }

  /** A map that lists exactly the possessions is the ledger. */
  lemma LedgerIs(t: Table, m: map<Holding, int>)
    requires Shape(t)
    requires forall i: nat {:trigger HoldingOf(t, i)} :: i < |t| && t[i].Possession? ==>
               HoldingOf(t, i) in m && m[HoldingOf(t, i)] == t[i].shares
    requires m.Keys <= Ledger(t).Keys
    ensures Ledger(t) == m
  {
    var l := Ledger(t);
    forall h | h in l ensures h in m && m[h] == l[h] {
      var i := LedgerFrom(t, h);
      assert HoldingOf(t, i) == h;
    }
    assert l.Keys == m.Keys;
  }

  lemma {:induction false} SetSharesShape(t: Table, i: nat, n: int)
    requires Shape(t) && i < |t| && (t[i].Ownership? || t[i].Possession?)
    ensures var t' := t[i := WithShares(t[i], n)]; Shape(t') && Extends(t, t')
  {
    var t' := t[i := WithShares(t[i], n)];
    forall j: nat | j < |t'| ensures ReachableAt(t', j) && LinkedAt(t', j) {
      assert ReachableAt(t, j) && LinkedAt(t, j);
    }
    forall j: nat, k: nat | j < |t'| && k < |t'| && Clash(t', j, k) ensures j == k {
      assert Clash(t, j, k);
    }
  }

  lemma SetSharesLedger(t: Table, i: nat, n: int)
    requires Shape(t) && i < |t| && (t[i].Ownership? || t[i].Possession?)
    ensures var t' := t[i := WithShares(t[i], n)]; Shape(t')
    ensures var t' := t[i := WithShares(t[i], n)];
            Ledger(t') == if t[i].Possession? then Ledger(t)[HoldingOf(t, i) := n] else Ledger(t)
  {
    var t' := t[i := WithShares(t[i], n)];
    SetSharesShape(t, i, n);
    var m := if t[i].Possession? then Ledger(t)[HoldingOf(t, i) := n] else Ledger(t);
    forall j: nat | j < |t'| && t'[j].Possession?
      ensures HoldingOf(t', j) in m && m[HoldingOf(t', j)] == t'[j].shares
    {
      HoldingKept(t, t', j);
      LedgerAt(t, j);
      if j != i && t[i].Possession? && HoldingOf(t, j) == HoldingOf(t, i) {
        HoldingInjective(t, i, j, HoldingOf(t, i));
      }
    }
    forall h | h in m ensures h in Ledger(t') {
      LedgerBack(t, t', h, if t[i].Possession? then i else |t|);
    }
    LedgerIs(t', m);
  }

  /** A holding of `t`, or of record `i` of `t`, still has its record in `t'`. */
  lemma LedgerBack(t: Table, t': Table, h: Holding, i: nat)
    requires Shape(t) && Shape(t') && Extends(t, t')
    requires h in Ledger(t) || HoldsAt(t, i, h)
    ensures h in Ledger(t')
  {
    var j := i;
    if h in Ledger(t) { j := LedgerFrom(t, h); }
    HoldingKept(t, t', j);
    LedgerAt(t', j);
  }

  /** Record `r` may be written to the empty slot `i`. */
  ghost predicate CanInsert(t: Table, i: nat, r: Record) {
    && i < |t| && t[i].Empty? && !r.Empty? && LinkOk(t, r)
    && Occupied(t, Home(r.key, |t|), Dist(Home(r.key, |t|), i, |t|))
    && forall j: nat :: j < |t| ==> !SameIdentity(t[j], r)
  }

  lemma InsertShape(t: Table, i: nat, r: Record)
    requires Shape(t) && CanInsert(t, i, r)
    ensures Shape(t[i := r]) && Extends(t, t[i := r])
  {
    var t' := t[i := r];
    forall j: nat | j < |t'| ensures ReachableAt(t', j) && LinkedAt(t', j) {
      assert ReachableAt(t, j) && LinkedAt(t, j);
    }
    forall j: nat, k: nat | j < |t'| && k < |t'| && Clash(t', j, k) ensures j == k {
      assert j != i && k != i ==> Clash(t, j, k);
      assert SameIdentity(t'[k], t'[j]);
    }
  }

  lemma InsertLedger(t: Table, i: nat, r: Record)
    requires Shape(t) && CanInsert(t, i, r)
    ensures var t' := t[i := r];
            && Shape(t')
            && (r.Possession? ==>
                  HoldingOf(t', i) !in Ledger(t) && Ledger(t') == Ledger(t)[HoldingOf(t', i) := r.shares])
            && (!r.Possession? ==> Ledger(t') == Ledger(t))
  {
    var t' := t[i := r];
    InsertShape(t, i, r);
    if r.Possession? && HoldingOf(t', i) in Ledger(t) {
      var j := LedgerFrom(t, HoldingOf(t', i));
      HoldingKept(t, t', j);
      HoldingInjective(t', i, j, HoldingOf(t', i));
    }
    var m := if r.Possession? then Ledger(t)[HoldingOf(t', i) := r.shares] else Ledger(t);
    forall j: nat | j < |t'| && t'[j].Possession?
      ensures HoldingOf(t', j) in m && m[HoldingOf(t', j)] == t'[j].shares
    {
      if j != i {
        HoldingKept(t, t', j);
        LedgerAt(t, j);
      }
    }
    forall h | h in m ensures h in Ledger(t') {
      if h in Ledger(t) { LedgerBack(t, t', h, i); } else { LedgerAt(t', i); }
    }
    LedgerIs(t', m);
  }

  /** Writing one slot moves each sum by the difference of that slot. */
  lemma {:induction false} ChildrenUpdate(t: Table, i: nat, r: Record, p: nat)
    requires i < |t|
    ensures Children(t[i := r], p) == Children(t, p) - ChildShares(t[i], p) + ChildShares(r, p)
  {
    var n := |t| - 1;
    if i < n {
      ChildrenUpdate(t[..n], i, r, p);
      assert t[i := r][..n] == t[..n][i := r];
    } else {
      assert t[i := r][..n] == t[..n];
    }
  }

  lemma {:induction false} ChildrenBounds(t: Table, p: nat)
    requires NonNegative(t)
    ensures Children(t, p) >= 0
    ensures forall i: nat :: i < |t| && Parent(t[i]) == p ==> t[i].shares <= Children(t, p)
  {
    if |t| > 0 {
      var s := t[..|t| - 1];
      forall i: nat | i < |s| ensures SharesOf(s[i]) >= 0 { assert s[i] == t[i]; }
      ChildrenBounds(s, p);
      forall i: nat | i < |t| && Parent(t[i]) == p ensures t[i].shares <= Children(t, p) {
        if i < |s| { assert s[i] == t[i]; }
      }
    }
  }

  /** No share count of a good table exceeds a signed 64-bit counter. */
  lemma SharesFit(t: Table, i: nat)
    requires Good(t) && i < |t|
    ensures 0 <= SharesOf(t[i]) <= MAX_INT64
    decreases t[i].Possession?
  {
    assert LinkedAt(t, i);
    if t[i].Ownership? {
      ChildrenBounds(t, t[i].issuance);
      assert BalancedAt(t, t[i].issuance);
    } else if t[i].Possession? {
      var o := t[i].ownership;
      ChildrenBounds(t, o);
      assert BalancedAt(t, o);
      SharesFit(t, o);
    }
  }

  // ----- Free slots -----

  ghost function FreeSlots(t: Table): set<nat> {
    set i: nat | i < |t| && t[i].Empty?
  }

  lemma InsertFree(t: Table, i: nat, r: Record)
    requires i < |t| && t[i].Empty? && !r.Empty?
    ensures FreeSlots(t[i := r]) == FreeSlots(t) - {i}
    ensures |FreeSlots(t[i := r])| == |FreeSlots(t)| - 1
  {
  }

  lemma SharesKeepFree(t: Table, i: nat, n: int)
    requires i < |t|
    ensures FreeSlots(t[i := WithShares(t[i], n)]) == FreeSlots(t)
  {
  }
}
