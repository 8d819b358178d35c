/** The singly linked index lists over the asset array: all issuances, the ownerships
    of each issuance, the possessions of each ownership. */
module AssetIndexLists {
  import opened AssetTable

  const NO_INDEX: nat := 0xffff_ffff

  // ----- What a list is -----

  /** Following `next` from `head` visits exactly `s` and then ends. */
  ghost predicate Chain(next: seq<nat>, head: nat, s: seq<nat>)
    decreases |s|
  {
    if s == [] then head == NO_INDEX
    else head == s[0] && head < |next| && Chain(next, next[head], s[1..])
  }

  ghost predicate Distinct(s: seq<nat>) {
    forall i: nat, j: nat :: i < j < |s| ==> s[i] != s[j]
  }

  /** The list from `head` ends, repeats nothing and holds exactly `members`. */
  ghost predicate HasList(next: seq<nat>, head: nat, members: set<nat>) {
    exists s: seq<nat> :: Chain(next, head, s) && Distinct(s) && (set x | x in s) == members
  }

  lemma {:induction false} ChainFrame(next: seq<nat>, head: nat, s: seq<nat>, i: nat, v: nat)
    requires Chain(next, head, s) && i < |next| && i !in s
    ensures Chain(next[i := v], head, s)
    decreases |s|
  {
    if s != [] { ChainFrame(next, next[head], s[1..], i, v); }
  }

  /** Writing the link of a record outside a list leaves that list alone. */
  lemma ListFrame(next: seq<nat>, head: nat, members: set<nat>, i: nat, v: nat)
    requires HasList(next, head, members) && i < |next| && i !in members
    ensures HasList(next[i := v], head, members)
  {
    var s :| Chain(next, head, s) && Distinct(s) && (set x | x in s) == members;
    ChainFrame(next, head, s, i, v);
  }

  /** Pushing a new record in front of a list. */
  lemma ListPush(next: seq<nat>, head: nat, members: set<nat>, i: nat)
    requires HasList(next, head, members) && i < |next| && i !in members
    ensures HasList(next[i := head], i, members + {i})
  {
    var s :| Chain(next, head, s) && Distinct(s) && (set x | x in s) == members;
    ChainFrame(next, head, s, i, head);
    var s' := [i] + s;
    assert s'[1..] == s;
    assert Chain(next[i := head], i, s');
    assert (set x | x in s') == members + {i};
  }

  /** The array index of the list is determined by its head. */
  lemma {:induction false} ChainUnique(next: seq<nat>, head: nat, s: seq<nat>, s': seq<nat>)
    requires Chain(next, head, s) && Chain(next, head, s') && |next| <= NO_INDEX
    ensures s == s'
    decreases |s|
  {
    if s != [] && s' != [] { ChainUnique(next, next[head], s[1..], s'[1..]); }
  }

  // ----- Agreement with the array -----

  ghost function IssuancesFrom(t: Table, k: nat): set<nat> {
    set i: nat | k <= i < |t| && t[i].Issuance?
  }

  ghost function ChildrenFrom(t: Table, p: nat, k: nat): set<nat> {
    set i: nat | k <= i < |t| && Parent(t[i]) == p
  }

  ghost predicate ChildListAt(t: Table, first: seq<nat>, next: seq<nat>, k: nat, p: nat)
    requires p < |first|
  {
    HasList(next, first[p], ChildrenFrom(t, p, k))
  }

  /** The lists hold exactly the records at slot `k` and above; with `k == 0`, all. */
  ghost predicate AgreeFrom(t: Table, issuances: nat, first: seq<nat>, next: seq<nat>, k: nat) {
    && |first| == |t| && |next| == |t|
    && HasList(next, issuances, IssuancesFrom(t, k))
    && forall p: nat :: p < |t| ==> ChildListAt(t, first, next, k, p)
  }

  /** `t'` is `t` with one more record, at slot `i`, as seen from slot `k'` instead of `k`. */
  ghost predicate OneMore(t: Table, k: nat, t': Table, k': nat, i: nat) {
    && |t| == |t'| && i < |t|
    && IssuancesFrom(t', k') == IssuancesFrom(t, k) + (if t'[i].Issuance? then {i} else {})
    && i !in IssuancesFrom(t, k)
    && forall p: nat :: p < |t| ==>
         && ChildrenFrom(t', p, k') == ChildrenFrom(t, p, k) + (if Parent(t'[i]) == p then {i} else {})
         && i !in ChildrenFrom(t, p, k)
  }

  lemma AddIssuanceAgrees(t: Table, k: nat, t': Table, k': nat, i: nat, issuances: nat, first: seq<nat>, next: seq<nat>)
    requires AgreeFrom(t, issuances, first, next, k) && OneMore(t, k, t', k', i) && t'[i].Issuance?
    ensures AgreeFrom(t', i, first, next[i := issuances], k')
  {
    var next' := next[i := issuances];
    ListPush(next, issuances, IssuancesFrom(t, k), i);
    forall p: nat | p < |t| ensures ChildListAt(t', first, next', k', p) {
      assert ChildListAt(t, first, next, k, p);
      ListFrame(next, first[p], ChildrenFrom(t, p, k), i, issuances);
    }
  }

  lemma AddChildAgrees(t: Table, k: nat, t': Table, k': nat, i: nat, q: nat, issuances: nat, first: seq<nat>,
                       next: seq<nat>)
    requires AgreeFrom(t, issuances, first, next, k) && OneMore(t, k, t', k', i)
    requires q < |t| && Parent(t'[i]) == q
    ensures AgreeFrom(t', issuances, first[q := i], next[i := first[q]], k')
  {
    var first', next' := first[q := i], next[i := first[q]];
    ListFrame(next, issuances, IssuancesFrom(t, k), i, first[q]);
    forall p: nat | p < |t| ensures ChildListAt(t', first', next', k', p) {
      assert ChildListAt(t, first, next, k, p);
      if p == q {
        ListPush(next, first[q], ChildrenFrom(t, q, k), i);
      } else {
        ListFrame(next, first[p], ChildrenFrom(t, p, k), i, first[q]);
      }
    }
  }

  /** Filling an empty slot adds one record, and changing share counts adds none. */
  lemma InsertIsOneMore(t: Table, i: nat, r: Record)
    requires i < |t| && t[i].Empty?
    ensures OneMore(t, 0, t[i := r], 0, i)
  {
  }

  lemma SharesKeepAgreement(t: Table, i: nat, n: int, issuances: nat, first: seq<nat>, next: seq<nat>)
    requires AgreeFrom(t, issuances, first, next, 0) && i < |t|
    ensures AgreeFrom(t[i := WithShares(t[i], n)], issuances, first, next, 0)
  {
    var t' := t[i := WithShares(t[i], n)];
    assert IssuancesFrom(t', 0) == IssuancesFrom(t, 0);
    forall p: nat | p < |t| ensures ChildListAt(t', first, next, 0, p) {
      assert ChildListAt(t, first, next, 0, p);
      assert ChildrenFrom(t', p, 0) == ChildrenFrom(t, p, 0);
    }
  }

  // ----- The structure itself -----

  class IndexLists {
    var issuancesFirst: nat
    const first: array<nat>
    const next: array<nat>

    constructor (capacity: nat)
      ensures first.Length == next.Length == capacity && fresh(first) && fresh(next) && first != next
    {
      first := new nat[capacity](_ => NO_INDEX);
      next := new nat[capacity](_ => NO_INDEX);
      issuancesFirst := NO_INDEX;
    }

    ghost predicate AgreesWith(t: Table)
      reads this, first, next
    {
      first != next && AgreeFrom(t, issuancesFirst, first[..], next[..], 0)
    }

    method AddIssuance(i: nat)
      requires i < next.Length
      modifies this, next
      ensures issuancesFirst == i
      ensures next[..] == old(next[..])[i := old(issuancesFirst)]
    {
      next[i] := issuancesFirst;
      issuancesFirst := i;
    }

    /** `addOwnership` and `addPossession`, which do the same with `p` the issuance or ownership. */
    method AddChild(p: nat, i: nat)
      requires p < first.Length && i < next.Length && first != next
      modifies first, next
      ensures first[..] == old(first[..])[p := i]
      ensures next[..] == old(next[..])[i := old(first[p])]
    {
      next[i] := first[p];
      first[p] := i;
    }

    method Reset()
      requires first != next
      modifies this, first, next
      ensures issuancesFirst == NO_INDEX
      ensures forall i: nat :: i < first.Length ==> first[i] == NO_INDEX
      ensures forall i: nat :: i < next.Length ==> next[i] == NO_INDEX
    {
      issuancesFirst := NO_INDEX;
      for i := 0 to first.Length
        invariant issuancesFirst == NO_INDEX
        invariant forall j: nat :: j < i ==> first[j] == NO_INDEX
      {
        first[i] := NO_INDEX;
      }
      for i := 0 to next.Length
        invariant issuancesFirst == NO_INDEX
        invariant forall j: nat :: j < first.Length ==> first[j] == NO_INDEX
        invariant forall j: nat :: j < i ==> next[j] == NO_INDEX
      {
        next[i] := NO_INDEX;
      }
    }

    /** Builds all lists from the array, scanning it from the last slot down. */
    method Rebuild(assets: array<Record>)
      requires first.Length == next.Length == assets.Length && first != next
      requires Linked(assets[..])
      modifies this, first, next
      ensures AgreesWith(assets[..])
    {
      Reset();
      var t := assets[..];
      EmptyAgrees(t, first[..], next[..]);
      var index := assets.Length;
      while index > 0
        invariant 0 <= index <= assets.Length
        invariant assets[..] == t
        invariant AgreeFrom(t, issuancesFirst, first[..], next[..], index)
      {
        index := index - 1;
        assert LinkedAt(t, index);
        ScanIsOneMore(t, index);
        ghost var was := (issuancesFirst, first[..], next[..]);
        match assets[index] {
          case Empty =>
            SkipAgrees(t, index, was.0, was.1, was.2);
          case Issuance(_, _, _, _) =>
            AddIssuanceAgrees(t, index + 1, t, index, index, was.0, was.1, was.2);
            AddIssuance(index);
          case Ownership(_, _, issuance, _) =>
            AddChildAgrees(t, index + 1, t, index, index, issuance, was.0, was.1, was.2);
            AddChild(issuance, index);
          case Possession(_, _, ownership, _) =>
            AddChildAgrees(t, index + 1, t, index, index, ownership, was.0, was.1, was.2);
            AddChild(ownership, index);
        }
      }
    }
  }

  lemma EmptyAgrees(t: Table, first: seq<nat>, next: seq<nat>)
    requires |first| == |next| == |t|
    requires forall i: nat :: i < |first| ==> first[i] == NO_INDEX
    ensures AgreeFrom(t, NO_INDEX, first, next, |t|)
  {
    assert Chain(next, NO_INDEX, []) && Distinct([]);
    assert (set x: nat | x in []) == {};
    assert HasList(next, NO_INDEX, {});
    assert IssuancesFrom(t, |t|) == {};
    forall p: nat | p < |t| ensures ChildListAt(t, first, next, |t|, p) {
      assert ChildrenFrom(t, p, |t|) == {};
    }
  }

  lemma ScanIsOneMore(t: Table, k: nat)
    requires k < |t|
    ensures OneMore(t, k + 1, t, k, k)
  {
  }

  lemma SkipAgrees(t: Table, k: nat, issuances: nat, first: seq<nat>, next: seq<nat>)
    requires k < |t| && t[k].Empty? && AgreeFrom(t, issuances, first, next, k + 1)
    ensures AgreeFrom(t, issuances, first, next, k)
  {
    ScanIsOneMore(t, k);
    forall p: nat | p < |t| ensures ChildListAt(t, first, next, k, p) {
      assert ChildListAt(t, first, next, k + 1, p);
    }
  }
}
