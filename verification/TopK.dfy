/** Counting how many values reach a bound, and keeping the largest ones in descending order. */
module TopK {

  function AtLeast(scores: seq<nat>, v: nat): (n: nat)
    ensures n <= |scores|
  {
    if scores == [] then 0
    else AtLeast(scores[..|scores| - 1], v) + if scores[|scores| - 1] >= v then 1 else 0
  }

  lemma {:induction false} AtLeastConcat(a: seq<nat>, b: seq<nat>, v: nat)
    ensures AtLeast(a + b, v) == AtLeast(a, v) + AtLeast(b, v)
  {
    if b == [] {
      assert a + b == a;
    } else {
      assert (a + b)[..|a + b| - 1] == a + b[..|b| - 1];
      AtLeastConcat(a, b[..|b| - 1], v);
    }
  }

  /** The count as the size of a set. */
  lemma {:induction false} AtLeastIsSize(scores: seq<nat>, v: nat)
    ensures AtLeast(scores, v) == |set i: nat | i < |scores| && scores[i] >= v|
  {
    var all := set i: nat | i < |scores| && scores[i] >= v;
    if scores == [] {
      assert all == {};
    } else {
      var n := |scores| - 1;
      var before := set i: nat | i < |scores[..n]| && scores[..n][i] >= v;
      AtLeastIsSize(scores[..n], v);
      assert all == if scores[n] >= v then before + {n} else before;
    }
  }

  lemma {:induction false} AtLeastZeros(scores: seq<nat>, v: nat)
    requires v >= 1 && forall i: nat :: i < |scores| ==> scores[i] == 0
    ensures AtLeast(scores, v) == 0
  {
    if scores != [] { AtLeastZeros(scores[..|scores| - 1], v); }
  }

  ghost predicate Descending(s: seq<nat>) {
    forall i: nat, j: nat :: i < j < |s| ==> s[i] >= s[j]
  }

  /** In descending order the count reaches the length exactly when the last element does. */
  lemma {:induction false} AtLeastFull(s: seq<nat>, v: nat)
    requires Descending(s) && s != []
    ensures AtLeast(s, v) == |s| <==> s[|s| - 1] >= v
  {
    if |s| > 1 { AtLeastFull(s[..|s| - 1], v); }
  }

  /** In descending order the values that reach a bound come first. */
  lemma {:induction false} AtLeastSplits(s: seq<nat>, v: nat, k: nat)
    requires Descending(s) && k < |s|
    ensures s[k] >= v <==> k < AtLeast(s, v)
  {
    var n := |s| - 1;
    if s[n] >= v {
      AtLeastFull(s, v);
      assert k < n ==> s[k] >= s[n];
    } else if k < n {
      AtLeastSplits(s[..n], v, k);
    }
  }

  /** So the count is where they end. */
  lemma CountIs(s: seq<nat>, v: nat, m: nat)
    requires Descending(s) && m <= |s| && (m > 0 ==> s[m - 1] >= v) && (m < |s| ==> s[m] < v)
    ensures AtLeast(s, v) == m
  {
    if m > 0 {
      AtLeastSplits(s, v, m - 1);
    }
    if m < |s| {
      AtLeastSplits(s, v, m);
    }
  }

  // ----- The largest values -----

  /** `top` holds the |top| largest of `seen`, descending, padded with zeros. */
  ghost predicate IsTop(top: seq<nat>, seen: seq<nat>) {
    Descending(top) && forall v: nat :: v >= 1 ==> CountsAgree(top, seen, v)
  }

  ghost predicate CountsAgree(top: seq<nat>, seen: seq<nat>, v: nat) {
    AtLeast(top, v) == if AtLeast(seen, v) < |top| then AtLeast(seen, v) else |top|
  }

  /** Inserting a score after everything at least as large, and dropping the last. */
  lemma TopStep(top: seq<nat>, seen: seq<nat>, x: nat, i: nat, all: seq<nat>)
    requires IsTop(top, seen) && i <= |top| && top != [] && all == top[..i] + [x] + top[i..]
    requires (i == 0 || top[i - 1] >= x) && forall j: nat :: i <= j < |top| ==> top[j] < x
    ensures IsTop(all[..|top|], seen + [x])
  {
    InsertDescending(top, x, i, all);
    forall v: nat | v >= 1 ensures CountsAgree(all[..|top|], seen + [x], v) {
      TopCount(top, seen, x, i, all, v);
    }
  }

  lemma InsertDescending(top: seq<nat>, x: nat, i: nat, all: seq<nat>)
    requires Descending(top) && i <= |top| && all == top[..i] + [x] + top[i..]
    requires (i == 0 || top[i - 1] >= x) && forall j: nat :: i <= j < |top| ==> top[j] < x
    ensures Descending(all)
  {
    forall j: nat, k: nat | j < k < |all| ensures all[j] >= all[k] {
      assert all[j] == if j < i then top[j] else if j == i then x else top[j - 1];
      assert all[k] == if k < i then top[k] else if k == i then x else top[k - 1];
    }
  }

  lemma TopCount(top: seq<nat>, seen: seq<nat>, x: nat, i: nat, all: seq<nat>, v: nat)
    requires i <= |top| && top != [] && all == top[..i] + [x] + top[i..] && Descending(all) && CountsAgree(top, seen, v)
    ensures CountsAgree(all[..|top|], seen + [x], v)
  {
    InsertCount(top, x, i, v);
    AtLeastFull(all, v);
    assert (seen + [x])[..|seen + [x]| - 1] == seen;
  }

  lemma InsertCount(top: seq<nat>, x: nat, i: nat, v: nat)
    requires i <= |top|
    ensures AtLeast(top[..i] + [x] + top[i..], v) == AtLeast(top, v) + if x >= v then 1 else 0
  {
    AtLeastConcat(top[..i] + [x], top[i..], v);
    AtLeastConcat(top[..i], [x], v);
    AtLeastConcat(top[..i], top[i..], v);
    assert top[..i] + top[i..] == top;
    assert [x][..0] == [];
  }

  /** If a value is inserted before the last one, which drops out, one more value reaches it. */
  lemma InsertReaches(top: seq<nat>, x: nat, i: nat, all: seq<nat>)
    requires Descending(top) && i < |top| && all == top[..i] + [x] + top[i..]
    requires (i == 0 || top[i - 1] >= x) && forall j: nat :: i <= j < |top| ==> top[j] < x
    ensures Descending(all[..|top|]) && AtLeast(all[..|top|], x) == AtLeast(top, x) + 1
  {
    InsertDescending(top, x, i, all);
    var s := all[..|top|];
    assert s[i] == x && (i + 1 < |s| ==> s[i + 1] == top[i]);
    CountIs(top, x, i);
    CountIs(s, x, i + 1);
  }

  lemma StartTop(top: seq<nat>)
    requires forall i: nat :: i < |top| ==> top[i] == 0
    ensures IsTop(top, [])
  {
    forall v: nat | v >= 1 ensures CountsAgree(top, [], v) {
      AtLeastZeros(top, v);
    }
  }
}
