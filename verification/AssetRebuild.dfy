/** The end-of-epoch rebuild: copying every holding with shares into a fresh table. */
module AssetRebuild {
  import opened AssetTable
  import opened AssetMoves

  // ----- Where each copied record went -----

  /** The old record `x` as it is first written to the new table, where `m` says which
      slot an already copied record went to. */
  ghost function Translate(t: Table, m: map<nat, nat>, x: nat): Record
    requires x < |t|
    requires t[x].Ownership? ==> t[x].issuance in m
    requires t[x].Possession? ==> t[x].ownership in m
  {
    match t[x]
    case Ownership(key, manager, issuance, _) => Ownership(key, manager, m[issuance], 0)
    case Possession(key, manager, ownership, _) => Possession(key, manager, m[ownership], 0)
    case r => r
  }

  ghost predicate ParentCopied(t: Table, m: map<nat, nat>, x: nat)
    requires x < |t|
  {
    && (t[x].Ownership? ==> t[x].issuance in m)
    && (t[x].Possession? ==> t[x].ownership in m)
  }

  ghost predicate CopiedAt(t: Table, r: Table, m: map<nat, nat>, x: nat)
    requires x in m
  {
    && x < |t| && m[x] < |r| && !t[x].Empty? && ParentCopied(t, m, x)
    && WithShares(r[m[x]], 0) == Translate(t, m, x)
  }

  ghost predicate ComesFrom(t: Table, m: map<nat, nat>, x: nat, y: nat) {
    x < |t| && x in m && m[x] == y
  }

  ghost predicate HasSource(t: Table, m: map<nat, nat>, y: nat) {
    exists x: nat :: ComesFrom(t, m, x, y)
  }

  ghost predicate SameSlot(m: map<nat, nat>, x: nat, x': nat)
    requires x in m && x' in m
  {
    m[x] == m[x']
  }

  /** `m` pairs the copied records of `t` with all the records of `r`. */
  ghost predicate Copy(t: Table, r: Table, m: map<nat, nat>) {
    && |r| == |t| && Shape(r)
    && (forall x {:trigger CopiedAt(t, r, m, x)} :: x in m ==> CopiedAt(t, r, m, x))
    && (forall x, x' :: x in m && x' in m && SameSlot(m, x, x') ==> x == x')
    && (forall y: nat {:trigger HasSource(t, m, y)} :: y < |r| && !r[y].Empty? ==> HasSource(t, m, y))
    && |FreeSlots(r)| + |m| == |t|
  }

  /** A copied record has the identity of one old record only. */
  lemma CopyIdentity(t: Table, r: Table, m: map<nat, nat>, x: nat, y: nat)
    requires Shape(t) && Copy(t, r, m) && x < |t| && !t[x].Empty? && ParentCopied(t, m, x)
    requires y < |r| && SameIdentity(r[y], Translate(t, m, x))
    ensures x in m && m[x] == y
  {
    assert HasSource(t, m, y);
    var z: nat :| ComesFrom(t, m, z, y);
    assert CopiedAt(t, r, m, z);
    assert LinkedAt(t, x) && LinkedAt(t, z);
    assert t[x].Ownership? && t[z].Ownership? ==> SameSlot(m, t[x].issuance, t[z].issuance);
    assert t[x].Possession? && t[z].Possession? ==> SameSlot(m, t[x].ownership, t[z].ownership);
    assert Clash(t, z, x);
  }

  /** What the rebuild probes for when it places old record `x`. */
  ghost predicate GoalOf(t: Table, m: map<nat, nat>, x: nat, g: Goal)
    requires x < |t|
  {
    && !t[x].Empty? && ParentCopied(t, m, x)
    && (if t[x].Issuance? then g == TheIssuance(t[x].key, t[x].name) else g == TheRecord(Translate(t, m, x)))
  }

  /** The probe finds the earlier copy of `x`, or a slot where `x` may be written. */
  lemma ProbeForCopy(t: Table, r: Table, m: map<nat, nat>, x: nat, g: Goal, y: nat)
    requires Shape(t) && Copy(t, r, m) && x < |t| && GoalOf(t, m, x, g)
    requires StopsAt(r, Home(t[x].key, |r|), g, y)
    ensures if r[y].Empty? then x !in m && CanInsert(r, y, Translate(t, m, x)) else x in m && m[x] == y
  {
    var c := Translate(t, m, x);
    if r[y].Empty? {
      ProbeMiss(r, Home(t[x].key, |r|), g, y);
      if x in m { assert CopiedAt(t, r, m, x); assert !Matches(g, r[m[x]]); }
      forall j: nat | j < |r| ensures !SameIdentity(r[j], c) {
        if SameIdentity(r[j], c) { CopyIdentity(t, r, m, x, j); }
      }
      assert LinkedAt(t, x);
      ParentsLink(t, r, m, x);
    } else {
      CopyIdentity(t, r, m, x, y);
    }
  }

  lemma ParentsLink(t: Table, r: Table, m: map<nat, nat>, x: nat)
    requires Shape(t) && Copy(t, r, m) && x < |t| && ParentCopied(t, m, x)
    ensures LinkOk(r, Translate(t, m, x))
  {
    assert LinkedAt(t, x);
    if t[x].Ownership? { assert CopiedAt(t, r, m, t[x].issuance); }
    if t[x].Possession? { assert CopiedAt(t, r, m, t[x].ownership); }
  }

  /** While something is left to copy there is a free slot. */
  lemma RoomForCopy(t: Table, r: Table, m: map<nat, nat>, x: nat)
    requires Copy(t, r, m) && x < |t| && x !in m
    ensures FreeSlots(r) != {}
  {
    forall y | y in m.Keys + {x} ensures y < |t| { assert y != x ==> CopiedAt(t, r, m, y); }
    BoundedSize(m.Keys + {x}, |t|);
  }

  lemma {:induction false} BoundedSize(s: set<nat>, n: nat)
    requires forall x :: x in s ==> x < n
    ensures |s| <= n
  {
    if n > 0 { BoundedSize(s - {n - 1}, n - 1); }
  }

  lemma CopyProbeStops(t: Table, r: Table, m: map<nat, nat>, x: nat, g: Goal)
    requires Shape(t) && Copy(t, r, m) && x < |t| && GoalOf(t, m, x, g)
    ensures CanStop(r, g)
  {
    if x in m {
      assert CopiedAt(t, r, m, x);
      assert Stops(g, r[m[x]]);
    } else {
      RoomForCopy(t, r, m, x);
      var i :| i in FreeSlots(r);
      assert Stops(g, r[i]);
    }
  }

  // ----- The two writes keep the pairing -----

  lemma CopyInsert(t: Table, r: Table, m: map<nat, nat>, x: nat, y: nat)
    requires Shape(t) && Copy(t, r, m) && x < |t| && !t[x].Empty? && ParentCopied(t, m, x) && x !in m
    requires CanInsert(r, y, Translate(t, m, x))
    ensures Copy(t, r[y := Translate(t, m, x)], m[x := y])
  {
    var c, m' := Translate(t, m, x), m[x := y];
    var r' := r[y := c];
    InsertShape(r, y, c);
    InsertFree(r, y, c);
    forall z | z in m' ensures CopiedAt(t, r', m', z) {
      if z != x { CopyKept(t, r, m, r', m', z); }
      assert LinkedAt(t, x);
    }
    forall z, z' | z in m' && z' in m' && SameSlot(m', z, z') ensures z == z' {
      if z != x { assert CopiedAt(t, r, m, z); }
      if z' != x { assert CopiedAt(t, r, m, z'); }
      assert z != x && z' != x ==> SameSlot(m, z, z');
    }
    forall w: nat | w < |r'| && !r'[w].Empty? ensures HasSource(t, m', w) {
      if w == y {
        assert ComesFrom(t, m', x, w);
      } else {
        assert HasSource(t, m, w);
        var z: nat :| ComesFrom(t, m, z, w);
        assert ComesFrom(t, m', z, w);
      }
    }
  }

  lemma CopyKept(t: Table, r: Table, m: map<nat, nat>, r': Table, m': map<nat, nat>, z: nat)
    requires Copy(t, r, m) && z in m && Extends(r, r') && (forall x :: x in m ==> x in m' && m'[x] == m[x])
    ensures z in m' && CopiedAt(t, r', m', z)
  {
    assert CopiedAt(t, r, m, z);
  }

  lemma CopyAddShares(t: Table, r: Table, m: map<nat, nat>, y: nat, n: int)
    requires Shape(t) && Copy(t, r, m) && y < |r| && (r[y].Ownership? || r[y].Possession?)
    ensures Copy(t, AddShares(r, y, n), m)
  {
    var r' := AddShares(r, y, n);
    AddSharesShape(r, y, n);
    forall z | z in m ensures CopiedAt(t, r', m, z) { CopyKept(t, r, m, r', m, z); }
    forall w: nat | w < |r'| && !r'[w].Empty? ensures HasSource(t, m, w) {
      assert w !in FreeSlots(r);
    }
  }

  // ----- Placing one possession with its ownership and issuance -----

  /** Writes `c` unless the slot is taken. */
  ghost function Put(r: Table, y: nat, c: Record): Table
    requires y < |r|
  {
    if r[y].Empty? then r[y := c] else r
  }

  lemma PutCopy(t: Table, r: Table, m: map<nat, nat>, x: nat, g: Goal, y: nat)
    requires Shape(t) && Copy(t, r, m) && x < |t| && GoalOf(t, m, x, g)
    requires StopsAt(r, Home(t[x].key, |r|), g, y)
    ensures Copy(t, Put(r, y, Translate(t, m, x)), m[x := y])
    ensures if x in m then m[x] == y && !r[y].Empty? else r[y].Empty?
  {
    ProbeForCopy(t, r, m, x, g, y);
    if r[y].Empty? { CopyInsert(t, r, m, x, y); } else { assert m[x := y] == m; CopiedNonEmpty(t, r, m, x); }
  }

  lemma CopiedNonEmpty(t: Table, r: Table, m: map<nat, nat>, x: nat)
    requires Copy(t, r, m) && x in m
    ensures x < |t| && m[x] < |r| && !r[m[x]].Empty? && ParentCopied(t, m, x)
    ensures Parent(r[m[x]]) == Parent(Translate(t, m, x))
  {
    assert CopiedAt(t, r, m, x);
  }

  /** A record without shares changes no count and no sum. */
  lemma PutSums(r: Table, y: nat, c: Record, p: nat)
    requires y < |r| && SharesOf(c) == 0
    ensures Children(Put(r, y, c), p) == Children(r, p)
    ensures forall w: nat :: w < |r| ==> SharesOf(Put(r, y, c)[w]) == SharesOf(r[w])
  {
    ChildrenUpdate(r, y, c, p);
  }

  lemma AddSharesSums(r: Table, y: nat, n: int, p: nat)
    requires y < |r| && (r[y].Ownership? || r[y].Possession?)
    ensures Children(AddShares(r, y, n), p) == Children(r, p) + Delta(Parent(r[y]) == p, n)
  {
    ChildrenUpdate(r, y, WithShares(r[y], SharesOf(r[y]) + n), p);
  }

  /** The new table after possession `i` has been placed at `ip`, its ownership at `io`, its issuance at `ia`. */
  ghost function Placed(t: Table, r: Table, i: nat, ia: nat, io: nat, ip: nat): Table
    requires i < |t| && t[i].Possession? && t[i].ownership < |t| && t[t[i].ownership].Ownership?
    requires t[t[i].ownership].issuance < |t| && ia < |r| && io < |r| && ip < |r|
  {
    var o := t[t[i].ownership];
    var r1 := Put(r, ia, t[o.issuance]);
    var r2 := Put(r1, io, Ownership(o.key, o.manager, ia, 0));
    var r3 := AddShares(r2, io, t[i].shares);
    var r4 := Put(r3, ip, Possession(t[i].key, t[i].manager, io, 0));
    AddShares(r4, ip, t[i].shares)
  }

  /** The sum of the shares of the possessions in the first `n` slots that go back to issuance `a`. */
  ghost function Deep(t: Table, a: nat, n: nat): int
    requires Linked(t) && n <= |t|
  {
    if n == 0 then 0 else Deep(t, a, n - 1) + DeepShare(t, a, n - 1)
  }

  ghost function DeepShare(t: Table, a: nat, i: nat): int
    requires Linked(t) && i < |t|
  {
    assert LinkedAt(t, i);
    if t[i].Possession? && Parent(t[t[i].ownership]) == a then t[i].shares else 0
  }

  /** What has been copied of record `x` once the first `n` slots have been scanned: nothing
      if it has no shares there, else exactly those shares. */
  ghost predicate SumsAt(t: Table, r: Table, m: map<nat, nat>, n: nat, x: nat)
    requires Linked(t) && n <= |t| && x < |t| && (x in m ==> m[x] < |r|)
  {
    && (t[x].Issuance? ==>
          if x in m then Children(r, m[x]) == Deep(t, x, n) > 0 else Deep(t, x, n) == 0)
    && (t[x].Ownership? ==>
          if x in m then Children(r, m[x]) == SharesOf(r[m[x]]) == Children(t[..n], x) > 0
          else Children(t[..n], x) == 0)
    && (t[x].Possession? ==>
          (x in m <==> x < n && t[x].shares > 0) && (x in m ==> SharesOf(r[m[x]]) == t[x].shares))
  }

  ghost predicate Rebuilding(t: Table, r: Table, m: map<nat, nat>, n: nat) {
    && Good(t) && Copy(t, r, m) && n <= |t|
    && (forall x {:trigger x in m} :: x in m ==> m[x] < |r|)
    && (forall x: nat {:trigger SumsAt(t, r, m, n, x)} :: x < |t| ==> SumsAt(t, r, m, n, x))
  }

  /** Nothing scanned, nothing copied. */
  lemma StartRebuild(t: Table, r: Table)
    requires Good(t) && |r| == |t| && forall i: nat :: i < |r| ==> r[i].Empty?
    ensures Rebuilding(t, r, map[], 0)
  {
    forall i: nat | i < |r| ensures ReachableAt(r, i) && LinkedAt(r, i) {}
    AllFree(r, |r|);
    assert r[..|r|] == r;
    forall x: nat | x < |t| ensures SumsAt(t, r, map[], 0, x) {}
  }

  lemma {:induction false} AllFree(r: Table, n: nat)
    requires n <= |r| && forall i: nat :: i < |r| ==> r[i].Empty?
    ensures |FreeSlots(r[..n])| == n
  {
    if n > 0 {
      AllFree(r, n - 1);
      assert FreeSlots(r[..n]) == FreeSlots(r[..n - 1]) + {n - 1};
    } else {
      assert FreeSlots(r[..0]) == {};
    }
  }

  lemma ChildrenNext(t: Table, n: nat, x: nat)
    requires n < |t|
    ensures Children(t[..n + 1], x) == Children(t[..n], x) + ChildShares(t[n], x)
  {
    assert t[..n + 1][..n] == t[..n];
  }

  /** A slot without a possession with shares is skipped. */
  lemma SkipStep(t: Table, r: Table, m: map<nat, nat>, n: nat)
    requires Rebuilding(t, r, m, n) && n < |t| && !(t[n].Possession? && t[n].shares > 0)
    ensures Rebuilding(t, r, m, n + 1)
  {
    assert LinkedAt(t, n) && SharesOf(t[n]) >= 0;
    var n' := n + 1;
    forall x: nat | x < |t| ensures SumsAt(t, r, m, n', x) {
      assert SumsAt(t, r, m, n, x);
      ChildrenNext(t, n, x);
    }
  }

  /** The three probes of the rebuild for possession `i`, each on the table the previous step left. */
  ghost predicate Probed(t: Table, r: Table, i: nat, ia: nat, io: nat, ip: nat)
    requires Linked(t) && |r| == |t| && i < |t| && t[i].Possession?
  {
    assert LinkedAt(t, i);
    var o := t[t[i].ownership];
    assert LinkedAt(t, t[i].ownership);
    var a := t[o.issuance];
    && StopsAt(r, Home(a.key, |r|), TheIssuance(a.key, a.name), ia)
    && var r1, co := Put(r, ia, a), Ownership(o.key, o.manager, ia, 0);
    && StopsAt(r1, Home(o.key, |r|), TheRecord(co), io)
    && var r3, cp := AddShares(Put(r1, io, co), io, t[i].shares), Possession(t[i].key, t[i].manager, io, 0);
    && StopsAt(r3, Home(t[i].key, |r|), TheRecord(cp), ip)
  }

  ghost function Placement(t: Table, m: map<nat, nat>, i: nat, ia: nat, io: nat, ip: nat): map<nat, nat>
    requires Linked(t) && i < |t| && t[i].Possession?
  {
    assert LinkedAt(t, i);
    var o := t[i].ownership;
    assert LinkedAt(t, o);
    m[t[o].issuance := ia][o := io][i := ip]
  }

  /** Placing a possession keeps the pairing; ownership and issuance are created only if missing. */
  lemma PlaceCopy(t: Table, r: Table, m: map<nat, nat>, i: nat, ia: nat, io: nat, ip: nat)
    requires Shape(t) && Copy(t, r, m) && i < |t| && t[i].Possession? && i !in m && Probed(t, r, i, ia, io, ip)
    ensures LinkedAt(t, i) && LinkedAt(t, t[i].ownership)
    ensures Copy(t, Placed(t, r, i, ia, io, ip), Placement(t, m, i, ia, io, ip))
    ensures var o, a := t[i].ownership, t[t[i].ownership].issuance;
            var r1 := Put(r, ia, t[a]);
            var r2 := Put(r1, io, Ownership(t[o].key, t[o].manager, ia, 0));
            var r4 := Put(AddShares(r2, io, t[i].shares), ip, Possession(t[i].key, t[i].manager, io, 0));
            && (if a in m then m[a] == ia else r[ia].Empty?)
            && (if o in m then m[o] == io else r1[io].Empty?)
            && r2[io].Ownership? && Parent(r2[io]) == ia && r4[ip].Possession? && Parent(r4[ip]) == io
  {
    assert LinkedAt(t, i);
    var o := t[i].ownership;
    assert LinkedAt(t, o);
    var a := t[o].issuance;
    PutCopy(t, r, m, a, TheIssuance(t[a].key, t[a].name), ia);
    var r1, m1, co := Put(r, ia, t[a]), m[a := ia], Ownership(t[o].key, t[o].manager, ia, 0);
    PutCopy(t, r1, m1, o, TheRecord(co), io);
    var r2, m2 := Put(r1, io, co), m1[o := io];
    assert CopiedAt(t, r2, m2, o);
    CopyAddShares(t, r2, m2, io, t[i].shares);
    var r3, cp := AddShares(r2, io, t[i].shares), Possession(t[i].key, t[i].manager, io, 0);
    PutCopy(t, r3, m2, i, TheRecord(cp), ip);
    var r4, m4 := Put(r3, ip, cp), m2[i := ip];
    assert CopiedAt(t, r4, m4, i);
    CopyAddShares(t, r4, m4, ip, t[i].shares);
  }

  /** The possession's shares arrive in the sums of its ownership and of its issuance. */
  lemma PlaceChildren(t: Table, r: Table, m: map<nat, nat>, i: nat, ia: nat, io: nat, ip: nat, p: nat)
    requires Shape(t) && Copy(t, r, m) && i < |t| && t[i].Possession? && i !in m && Probed(t, r, i, ia, io, ip)
    ensures LinkedAt(t, i) && LinkedAt(t, t[i].ownership)
    ensures Children(Placed(t, r, i, ia, io, ip), p)
         == Children(r, p) + Delta(p == ia, t[i].shares) + Delta(p == io, t[i].shares)
  {
    PlaceCopy(t, r, m, i, ia, io, ip);
    var o, n := t[t[i].ownership], t[i].shares;
    var co, cp := Ownership(o.key, o.manager, ia, 0), Possession(t[i].key, t[i].manager, io, 0);
    var r1 := Put(r, ia, t[o.issuance]);
    PutSums(r, ia, t[o.issuance], p);
    var r2 := Put(r1, io, co);
    PutSums(r1, io, co, p);
    AddSharesSums(r2, io, n, p);
    var r3 := AddShares(r2, io, n);
    PutSums(r3, ip, cp, p);
    AddSharesSums(Put(r3, ip, cp), ip, n, p);
  }

  lemma PlaceShares(t: Table, r: Table, m: map<nat, nat>, i: nat, ia: nat, io: nat, ip: nat, w: nat)
    requires Shape(t) && Copy(t, r, m) && i < |t| && t[i].Possession? && i !in m && Probed(t, r, i, ia, io, ip)
    requires w < |r|
    ensures LinkedAt(t, i) && LinkedAt(t, t[i].ownership)
    ensures SharesOf(Placed(t, r, i, ia, io, ip)[w])
         == SharesOf(r[w]) + Delta(w == io, t[i].shares) + Delta(w == ip, t[i].shares)
  {
    PlaceCopy(t, r, m, i, ia, io, ip);
    var o, n := t[t[i].ownership], t[i].shares;
    var co, cp := Ownership(o.key, o.manager, ia, 0), Possession(t[i].key, t[i].manager, io, 0);
    var r1 := Put(r, ia, t[o.issuance]);
    PutSums(r, ia, t[o.issuance], 0);
    PutSums(r1, io, co, 0);
    PutSums(AddShares(Put(r1, io, co), io, n), ip, cp, 0);
  }

  /** Slots before and after the placement of one possession, for record `x`. */
  lemma PlaceSlots(t: Table, r: Table, m: map<nat, nat>, r': Table, m': map<nat, nat>, i: nat, ia: nat, io: nat,
                   ip: nat, x: nat)
    requires Shape(t) && Copy(t, r, m) && Copy(t, r', m') && i < |t| && t[i].Possession? && x in m'
    requires m' == Placement(t, m, i, ia, io, ip)
    ensures LinkedAt(t, i) && LinkedAt(t, t[i].ownership)
    ensures var o, a := t[i].ownership, t[t[i].ownership].issuance;
            (m'[x] == ia <==> x == a) && (m'[x] == io <==> x == o) && (m'[x] == ip <==> x == i)
  {
    assert LinkedAt(t, i);
    var o := t[i].ownership;
    assert LinkedAt(t, o);
    var a := t[o].issuance;
    assert SameSlot(m', x, a) <==> m'[x] == ia;
    assert SameSlot(m', x, o) <==> m'[x] == io;
    assert SameSlot(m', x, i) <==> m'[x] == ip;
  }

  lemma PlaceStepAt(t: Table, r: Table, m: map<nat, nat>, i: nat, ia: nat, io: nat, ip: nat, r': Table,
                    m': map<nat, nat>, x: nat)
    requires Rebuilding(t, r, m, i) && i < |t| && t[i].Possession? && t[i].shares > 0
    requires LinkedAt(t, i) && LinkedAt(t, t[i].ownership)
    requires Probed(t, r, i, ia, io, ip) && r' == Placed(t, r, i, ia, io, ip) && m' == Placement(t, m, i, ia, io, ip)
    requires i !in m && Copy(t, r', m') && x < |t| && (x in m' ==> m'[x] < |r'|)
    ensures SumsAt(t, r', m', i + 1, x)
  {
    var n, o := t[i].shares, t[i].ownership;
    var a := t[o].issuance;
    PlaceCopy(t, r, m, i, ia, io, ip);
    assert SumsAt(t, r, m, i, x);
    ChildrenNext(t, i, x);
    if x in m' {
      PlaceSlots(t, r, m, r', m', i, ia, io, ip, x);
      PlaceChildren(t, r, m, i, ia, io, ip, m'[x]);
      PlaceShares(t, r, m, i, ia, io, ip, m'[x]);
      if x !in m { NewSlotEmpty(t, r, m, i, ia, io, ip, x); }
    }
  }

  /** A record placed for the first time went to a slot that was empty and had no children. */
  lemma NewSlotEmpty(t: Table, r: Table, m: map<nat, nat>, i: nat, ia: nat, io: nat, ip: nat, x: nat)
    requires Shape(t) && Copy(t, r, m) && i < |t| && t[i].Possession? && i !in m && Probed(t, r, i, ia, io, ip)
    requires x !in m && x in Placement(t, m, i, ia, io, ip)
    ensures var y := Placement(t, m, i, ia, io, ip)[x]; y < |r| && SharesOf(r[y]) == 0 && Children(r, y) == 0
  {
    PlaceCopy(t, r, m, i, ia, io, ip);
    var m' := Placement(t, m, i, ia, io, ip);
    var y, r' := m'[x], Placed(t, r, i, ia, io, ip);
    CopiedNonEmpty(t, r', m', x);
    PlaceSlots(t, r, m, r', m', i, ia, io, ip, x);
    if !r[y].Empty? {
      assert HasSource(t, m, y);
      var z: nat :| ComesFrom(t, m, z, y);
      PlaceSlots(t, r, m, r', m', i, ia, io, ip, z);
    }
    NoChildren(r, r, y);
  }

  /** One possession with shares: from the first `i` slots scanned to the first `i + 1`. */
  lemma PlaceStep(t: Table, r: Table, m: map<nat, nat>, i: nat, ia: nat, io: nat, ip: nat, r': Table, m': map<nat, nat>)
    requires Rebuilding(t, r, m, i) && i < |t| && t[i].Possession? && t[i].shares > 0
    requires LinkedAt(t, i) && LinkedAt(t, t[i].ownership)
    requires Probed(t, r, i, ia, io, ip) && r' == Placed(t, r, i, ia, io, ip) && m' == Placement(t, m, i, ia, io, ip)
    ensures Rebuilding(t, r', m', i + 1)
  {
    assert SumsAt(t, r, m, i, i);
    PlaceCopy(t, r, m, i, ia, io, ip);
    forall x | x in m' ensures m'[x] < |r'| { assert CopiedAt(t, r', m', x); }
    var n := i + 1;
    forall x: nat | x < |t| ensures SumsAt(t, r', m', n, x) {
      PlaceStepAt(t, r, m, i, ia, io, ip, r', m', x);
    }
  }

  // ----- The finished table -----

  /** The sum over the first `k` slots of what the first `n` slots give to the ownerships of `a`. */
  ghost function OwnedFrom(t: Table, a: nat, n: nat, k: nat): int
    requires n <= |t| && k <= |t|
  {
    if k == 0 then 0
    else OwnedFrom(t, a, n, k - 1)
           + (if t[k - 1].Ownership? && t[k - 1].issuance == a then Children(t[..n], k - 1) else 0)
  }

  lemma {:induction false} OwnedNext(t: Table, a: nat, n: nat, k: nat)
    requires Linked(t) && n < |t| && k <= |t|
    ensures OwnedFrom(t, a, n + 1, k)
         == OwnedFrom(t, a, n, k) + (if t[n].Possession? && t[n].ownership < k then DeepShare(t, a, n) else 0)
  {
    assert LinkedAt(t, n);
    if k > 0 {
      OwnedNext(t, a, n, k - 1);
      ChildrenNext(t, n, k - 1);
    }
  }

  /** Summing possessions by issuance is summing them by ownership first. */
  lemma {:induction false} DeepIsOwned(t: Table, a: nat, n: nat)
    requires Linked(t) && n <= |t|
    ensures Deep(t, a, n) == OwnedFrom(t, a, n, |t|)
  {
    if n == 0 {
      OwnedNone(t, a, |t|);
    } else {
      DeepIsOwned(t, a, n - 1);
      OwnedNext(t, a, n - 1, |t|);
      assert LinkedAt(t, n - 1);
    }
  }

  lemma {:induction false} OwnedNone(t: Table, a: nat, k: nat)
    requires k <= |t|
    ensures OwnedFrom(t, a, 0, k) == 0
  {
    if k > 0 { OwnedNone(t, a, k - 1); }
  }

  lemma {:induction false} OwnedIsChildren(t: Table, a: nat, k: nat)
    requires Good(t) && a < |t| && t[a].Issuance? && k <= |t|
    ensures OwnedFrom(t, a, |t|, k) == Children(t[..k], a)
  {
    if k > 0 {
      OwnedIsChildren(t, a, k - 1);
      ChildrenNext(t, k - 1, a);
      assert LinkedAt(t, k - 1) && BalancedAt(t, k - 1);
      assert t[..|t|] == t;
    }
  }

  /** An issuance's total is the sum of all possessions that go back to it. */
  lemma DeepTotal(t: Table, a: nat)
    requires Good(t) && a < |t| && t[a].Issuance?
    ensures Deep(t, a, |t|) == Children(t, a)
  {
    DeepIsOwned(t, a, |t|);
    OwnedIsChildren(t, a, |t|);
    assert t[..|t|] == t;
  }

  /** `r` holds exactly the records of `t` that stand for shares, each with its own shares. */
  ghost predicate Compacts(t: Table, r: Table, m: map<nat, nat>, x: nat)
    requires x < |t| && (x in m ==> m[x] < |r|)
  {
    && (t[x].Issuance? ==>
        if x in m then r[m[x]] == t[x] && Children(r, m[x]) == Children(t, x) > 0 else Children(t, x) == 0)
    && (t[x].Ownership? || t[x].Possession? ==>
          if x in m then SharesOf(r[m[x]]) == SharesOf(t[x]) > 0 else SharesOf(t[x]) == 0)
  }

  /** A surviving ownership or possession in its fields: the same holder, manager and shares, under the survivor of
      the record it belonged to. */
  lemma SurvivorFields(t: Table, r: Table, m: map<nat, nat>, x: nat)
    requires Copy(t, r, m) && x < |t| && x in m && CopiedAt(t, r, m, x) && Compacts(t, r, m, x)
    ensures t[x].Ownership? ==>
              t[x].issuance in m && r[m[x]] == Ownership(t[x].key, t[x].manager, m[t[x].issuance], t[x].shares)
    ensures t[x].Possession? ==>
              t[x].ownership in m && r[m[x]] == Possession(t[x].key, t[x].manager, m[t[x].ownership], t[x].shares)
  {
    var y := r[m[x]];
    assert WithShares(y, 0) == Translate(t, m, x);
  }

  lemma RebuiltCompacts(t: Table, r: Table, m: map<nat, nat>, x: nat)
    requires Rebuilding(t, r, m, |t|) && x < |t|
    ensures x in m ==> m[x] < |r|
    ensures Compacts(t, r, m, x)
  {
    assert SumsAt(t, r, m, |t|, x) && BalancedAt(t, x) && SharesOf(t[x]) >= 0;
    assert t[..|t|] == t;
    if t[x].Issuance? { DeepTotal(t, x); }
    if x in m { assert CopiedAt(t, r, m, x); }
  }

  /** The rebuilt table satisfies the whole invariant again. */
  lemma RebuiltGood(t: Table, r: Table, m: map<nat, nat>)
    requires Rebuilding(t, r, m, |t|)
    ensures Good(r)
  {
    forall y: nat | y < |r| ensures SharesOf(r[y]) >= 0 && BalancedAt(r, y) {
      if !r[y].Empty? {
        assert HasSource(t, m, y);
        var x: nat :| ComesFrom(t, m, x, y);
        assert CopiedAt(t, r, m, x) && SumsAt(t, r, m, |t|, x) && BalancedAt(t, x);
        RebuiltCompacts(t, r, m, x);
      }
    }
  }

  lemma HoldingCopied(t: Table, r: Table, m: map<nat, nat>, x: nat)
    requires Shape(t) && Copy(t, r, m) && x in m && x < |t| && t[x].Possession?
    ensures m[x] < |r| && r[m[x]].Possession? && HoldingOf(r, m[x]) == HoldingOf(t, x)
  {
    assert CopiedAt(t, r, m, x) && LinkedAt(t, x);
    var o := t[x].ownership;
    assert CopiedAt(t, r, m, o) && LinkedAt(t, o);
    assert CopiedAt(t, r, m, t[o].issuance);
    assert LinkedAt(r, m[x]) && LinkedAt(r, m[o]);
  }

  /** The holdings with shares, and nothing else. */
  ghost function Positive(l: map<Holding, int>): map<Holding, int> {
    map h | h in l && l[h] > 0 :: l[h]
  }

  /** The rebuild preserves meaning: every holding keeps its share count and only empty holdings go. */
  lemma RebuiltLedger(t: Table, r: Table, m: map<nat, nat>)
    requires Rebuilding(t, r, m, |t|)
    ensures Ledger(r) == Positive(Ledger(t))
  {
    var l := Positive(Ledger(t));
    forall y: nat | y < |r| && r[y].Possession? ensures HoldingOf(r, y) in l && l[HoldingOf(r, y)] == r[y].shares {
      assert HasSource(t, m, y);
      var x: nat :| ComesFrom(t, m, x, y);
      assert CopiedAt(t, r, m, x);
      RebuiltCompacts(t, r, m, x);
      HoldingCopied(t, r, m, x);
      LedgerAt(t, x);
    }
    forall h | h in l ensures h in Ledger(r) {
      var x := LedgerFrom(t, h);
      RebuiltCompacts(t, r, m, x);
      HoldingCopied(t, r, m, x);
      LedgerAt(r, m[x]);
    }
    LedgerIs(r, l);
  }

  lemma Rebuilt(t: Table, r: Table, m: map<nat, nat>)
    requires Rebuilding(t, r, m, |t|)
    ensures Good(r) && Copy(t, r, m) && Ledger(r) == Positive(Ledger(t))
    ensures forall x: nat :: x < |t| ==> (x in m ==> m[x] < |r|) && Compacts(t, r, m, x)
  {
    RebuiltGood(t, r, m);
    RebuiltLedger(t, r, m);
    forall x: nat | x < |t| ensures (x in m ==> m[x] < |r|) && Compacts(t, r, m, x) { RebuiltCompacts(t, r, m, x); }
  }
}
