/** The KangarooTwelve tree with empty customization string: KT128 of section 3.2 of RFC 9861 as
    the reference, and what a hasher keeps while it takes in a message piece by piece. */
module KangarooTree {
  import opened Sponge

  const CHUNK: nat := 8192

  // ----- KT128 -----

  const LEAF: byte := 0x0B
  const SINGLE: byte := 0x07
  const FINAL: byte := 0x06

  function Zeros(n: nat): (z: seq<byte>)
    ensures |z| == n && forall k: nat :: k < n ==> z[k] == 0
  {
    seq(n, _ => 0)
  }

  /** The eight bytes between the first chunk and the chaining values. */
  function Marker(): (m: seq<byte>)
    ensures |m| == 8
  {
    [3] + Zeros(7)
  }

  ghost function ChainingValue(perm: State -> State, leaf: seq<byte>): (cv: seq<byte>)
    ensures |cv| == CAPACITY
  {
    Turbo(perm, leaf, LEAF)[..CAPACITY]
  }

  /** The chaining values of all leaves of `rest`, the last one possibly short. */
  ghost function ChainingValues(perm: State -> State, rest: seq<byte>): seq<byte> {
    if |rest| == 0 then []
    else if |rest| <= CHUNK then ChainingValue(perm, rest)
    else ChainingValue(perm, rest[..CHUNK]) + ChainingValues(perm, rest[CHUNK..])
  }

  ghost function Leaves(len: nat): nat {
    (len + CHUNK - 1) / CHUNK
  }

  function BigEndian(x: nat): seq<byte> {
    if x == 0 then [] else BigEndian(x / 256) + [(x % 256) as byte]
  }

  /** Section 3.3 of RFC 9861, for numbers of less than 256 bytes. */
  ghost function LengthEncode(x: nat): seq<byte> {
    BigEndian(x) + [(|BigEndian(x)| % 256) as byte]
  }

  /** First chunk, marker and chaining values: the final node before the count. */
  ghost function Trunk(perm: State -> State, s: seq<byte>): seq<byte>
    requires |s| >= CHUNK
  {
    s[..CHUNK] + Marker() + ChainingValues(perm, s[CHUNK..])
  }

  /** The state of the tree hash of a message with its customization suffix, before the first output byte. */
  ghost function TreeHash(perm: State -> State, s: seq<byte>): State {
    if |s| <= CHUNK then Turbo(perm, s, SINGLE)
    else Turbo(perm, Trunk(perm, s) + LengthEncode(Leaves(|s| - CHUNK)) + [0xFF, 0xFF], FINAL)
  }

  /** The state of KT128 of `m` with empty customization string, whose length encoding is one zero byte. */
  ghost function Kt128State(perm: State -> State, m: seq<byte>): State {
    TreeHash(perm, m + [0])
  }

  /** KT128 of `m` with `n` bytes of output. */
  ghost function Kt128(perm: State -> State, m: seq<byte>, n: nat): (out: seq<byte>)
    ensures |out| == n
  {
    Output(perm, Kt128State(perm, m), n)
  }

  // ----- Leaves one at a time -----

  lemma {:induction false} ChainAppend(perm: State -> State, a: seq<byte>, leaf: seq<byte>)
    requires |a| % CHUNK == 0 && 0 < |leaf| <= CHUNK
    ensures ChainingValues(perm, a + leaf) == ChainingValues(perm, a) + ChainingValue(perm, leaf)
    decreases |a|
  {
    if a == [] {
      assert a + leaf == leaf;
    } else {
      var b := a[CHUNK..];
      assert (a + leaf)[..CHUNK] == a[..CHUNK] && (a + leaf)[CHUNK..] == b + leaf;
      ChainAppend(perm, b, leaf);
      ChainFirst(perm, a);
    }
  }

  lemma {:induction false} ChainFirst(perm: State -> State, a: seq<byte>)
    requires |a| >= CHUNK
    ensures ChainingValues(perm, a) == ChainingValue(perm, a[..CHUNK]) + ChainingValues(perm, a[CHUNK..])
  {
    if |a| == CHUNK {
      assert a[..CHUNK] == a;
      assert ChainingValues(perm, a[CHUNK..]) == [];
    }
  }

  // ----- What a hasher has absorbed -----

  datatype Tree = Tree(finalNode: Node, queueNode: Node, blockNumber: nat, queueAbsorbedLen: nat)

  ghost predicate TreeOk(t: Tree) {
    NodeOk(t.finalNode) && NodeOk(t.queueNode)
  }

  /** The first chunk is still in the final node. */
  ghost predicate InFirst(perm: State -> State, t: Tree, s: seq<byte>) {
    t.blockNumber == 0 && |s| == t.queueAbsorbedLen <= CHUNK && t.finalNode == Absorbed(perm, Zero(), s)
  }

  /** The final node holds the trunk of all complete leaves, the queue node the rest. */
  ghost predicate InLeaves(perm: State -> State, t: Tree, s: seq<byte>) {
    && t.blockNumber >= 1 && |s| >= CHUNK && t.queueAbsorbedLen == |s| % CHUNK
    && t.blockNumber == |s| / CHUNK
    && t.finalNode == Absorbed(perm, Zero(), Trunk(perm, s[..|s| - t.queueAbsorbedLen]))
    && (t.queueAbsorbedLen > 0 ==> t.queueNode == Absorbed(perm, Zero(), s[|s| - t.queueAbsorbedLen..]))
  }

  ghost predicate Holds(perm: State -> State, t: Tree, s: seq<byte>) {
    TreeOk(t) && (InFirst(perm, t, s) || InLeaves(perm, t, s))
  }

  lemma {:induction false} FirstPart(perm: State -> State, t: Tree, s: seq<byte>, d: seq<byte>, t': Tree)
    requires Holds(perm, t, s) && t.blockNumber == 0 && |s| + |d| <= CHUNK
    requires t' == Tree(Absorbed(perm, t.finalNode, d), t.queueNode, 0, t.queueAbsorbedLen + |d|)
    ensures Holds(perm, t', s + d)
  {
    AbsorbConcat(perm, Zero(), s, d);
  }

  lemma FinishFirst(perm: State -> State, t: Tree, s: seq<byte>, t': Tree)
    requires Holds(perm, t, s) && t.blockNumber == 0 && |s| == CHUNK
    requires t' == Tree(Absorbed(perm, t.finalNode, Marker()), t.queueNode, 1, 0)
    ensures Holds(perm, t', s)
  {
    AbsorbConcat(perm, Zero(), s, Marker());
    assert s[..|s| - 0] == s && s[..CHUNK] == s && s[CHUNK..] == [];
    assert Trunk(perm, s) == s + Marker();
  }

  /** One more complete leaf, given by its chaining value. */
  lemma LeafDone(perm: State -> State, t: Tree, s: seq<byte>, leaf: seq<byte>, t': Tree)
    requires Holds(perm, t, s) && t.blockNumber >= 1 && t.queueAbsorbedLen == 0 && |leaf| == CHUNK
    requires NodeOk(t'.queueNode)
    requires t' == Tree(Absorbed(perm, t.finalNode, ChainingValue(perm, leaf)), t'.queueNode, t.blockNumber + 1, 0)
    ensures Holds(perm, t', s + leaf)
  {
    TrunkAppend(perm, s, leaf);
    AbsorbConcat(perm, Zero(), Trunk(perm, s), ChainingValue(perm, leaf));
    assert s[..|s| - 0] == s;
    assert (s + leaf)[..|s + leaf| - 0] == s + leaf;
  }

  lemma TrunkAppend(perm: State -> State, s: seq<byte>, leaf: seq<byte>)
    requires |s| >= CHUNK && |s| % CHUNK == 0 && 0 < |leaf| <= CHUNK
    ensures Trunk(perm, s + leaf) == Trunk(perm, s) + ChainingValue(perm, leaf)
  {
    assert (s + leaf)[..CHUNK] == s[..CHUNK] && (s + leaf)[CHUNK..] == s[CHUNK..] + leaf;
    ChainAppend(perm, s[CHUNK..], leaf);
  }

  /** The queue node after `d` more bytes of the current leaf. */
  ghost function Queued(perm: State -> State, t: Tree, d: seq<byte>): Node
    requires TreeOk(t)
  {
    Absorbed(perm, if t.queueAbsorbedLen == 0 then Zero() else t.queueNode, d)
  }

  /** The bytes of the leaf under way. */
  ghost function Pending(t: Tree, s: seq<byte>): seq<byte>
    requires t.queueAbsorbedLen <= |s|
  {
    s[|s| - t.queueAbsorbedLen..]
  }

  lemma QueuedPending(perm: State -> State, t: Tree, s: seq<byte>, d: seq<byte>)
    requires Holds(perm, t, s) && t.blockNumber >= 1
    ensures Queued(perm, t, d) == Absorbed(perm, Zero(), Pending(t, s) + d)
  {
    AbsorbConcat(perm, Zero(), Pending(t, s), d);
    if t.queueAbsorbedLen == 0 {
      assert Pending(t, s) + d == d;
    }
  }

  lemma QueuePart(perm: State -> State, t: Tree, s: seq<byte>, d: seq<byte>, t': Tree)
    requires Holds(perm, t, s) && t.blockNumber >= 1 && t.queueAbsorbedLen + |d| < CHUNK
    requires t' == Tree(t.finalNode, Queued(perm, t, d), t.blockNumber, t.queueAbsorbedLen + |d|)
    ensures Holds(perm, t', s + d)
  {
    QueuedPending(perm, t, s, d);
    var q := t.queueAbsorbedLen;
    SameLeaf(|s|, |d|, q);
    assert (s + d)[..|s + d| - (q + |d|)] == s[..|s| - q];
    assert (s + d)[|s + d| - (q + |d|)..] == Pending(t, s) + d;
  }

  lemma SameLeaf(n: nat, m: nat, q: nat)
    requires q == n % CHUNK && q + m < CHUNK
    ensures (n + m) % CHUNK == q + m && (n + m) / CHUNK == n / CHUNK
  {
  }

  lemma QueueFull(perm: State -> State, t: Tree, s: seq<byte>, d: seq<byte>, t': Tree)
    requires Holds(perm, t, s) && t.blockNumber >= 1 && t.queueAbsorbedLen + |d| == CHUNK && NodeOk(t'.queueNode)
    requires t' == Tree(Absorbed(perm, t.finalNode, Squeezed(perm, Queued(perm, t, d), LEAF)[..CAPACITY]),
                        t'.queueNode, t.blockNumber + 1, 0)
    ensures Holds(perm, t', s + d)
  {
    var q := t.queueAbsorbedLen;
    var s0, leaf := s[..|s| - q], Pending(t, s) + d;
    QueuedPending(perm, t, s, d);
    NodeIsTurbo(perm, leaf, LEAF);
    assert s0 + leaf == s + d;
    LeafStart(perm, t, s);
    LeafDone(perm, t.(queueAbsorbedLen := 0), s0, leaf, t');
  }

  /** Without its pending bytes the hasher stands at a leaf boundary. */
  lemma LeafStart(perm: State -> State, t: Tree, s: seq<byte>)
    requires Holds(perm, t, s) && t.blockNumber >= 1
    ensures Holds(perm, t.(queueAbsorbedLen := 0), s[..|s| - t.queueAbsorbedLen])
  {
    var s0 := s[..|s| - t.queueAbsorbedLen];
    assert |s0| % CHUNK == 0 && |s0| / CHUNK == |s| / CHUNK && |s0| >= CHUNK;
    assert s0[..|s0| - 0] == s0;
  }

  // ----- The digest -----

  lemma SingleDigest(perm: State -> State, t: Tree, s: seq<byte>)
    requires Holds(perm, t, s) && t.blockNumber == 0
    ensures Squeezed(perm, t.finalNode, SINGLE) == TreeHash(perm, s)
  {
    NodeIsTurbo(perm, s, SINGLE);
  }

  ghost predicate TrunkIn(perm: State -> State, n: Node, s: seq<byte>) {
    |s| > CHUNK && n == Absorbed(perm, Zero(), Trunk(perm, s))
  }

  /** The final node once the last, possibly short, leaf is in. */
  lemma TrunkDone(perm: State -> State, t: Tree, s: seq<byte>)
    requires Holds(perm, t, s) && t.blockNumber >= 1 && |s| > CHUNK
    ensures t.queueAbsorbedLen == 0 ==> TrunkIn(perm, t.finalNode, s) && t.blockNumber == Leaves(|s| - CHUNK) + 1
    ensures t.queueAbsorbedLen > 0 ==>
              && TrunkIn(perm, Absorbed(perm, t.finalNode, Squeezed(perm, t.queueNode, LEAF)[..CAPACITY]), s)
              && t.blockNumber == Leaves(|s| - CHUNK)
  {
    var q := t.queueAbsorbedLen;
    var s0, leaf := s[..|s| - q], s[|s| - q..];
    assert s0 + leaf == s;
    if q == 0 {
      assert s0 == s;
    } else {
      NodeIsTurbo(perm, leaf, LEAF);
      LeafStart(perm, t, s);
      TrunkAppend(perm, s0, leaf);
      AbsorbConcat(perm, Zero(), Trunk(perm, s0), ChainingValue(perm, leaf));
    }
  }

  lemma TreeDigest(perm: State -> State, n: Node, s: seq<byte>, suffix: seq<byte>)
    requires TrunkIn(perm, n, s) && suffix == LengthEncode(Leaves(|s| - CHUNK)) + [0xFF, 0xFF]
    ensures NodeOk(n) && Squeezed(perm, Absorbed(perm, n, suffix), FINAL) == TreeHash(perm, s)
  {
    var trunk := Trunk(perm, s);
    AbsorbConcat(perm, Zero(), trunk, suffix);
    assert trunk + suffix == trunk + LengthEncode(Leaves(|s| - CHUNK)) + [0xFF, 0xFF];
    NodeIsTurbo(perm, trunk + suffix, FINAL);
  }
}
