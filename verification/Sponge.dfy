/** The 168-byte-rate sponge under KangarooTwelve: absorbing bytes in any portions, with full
    blocks taken in place, and TurboSHAKE128 (section 2 of RFC 9861) as the reference. The
    12-round permutation is a parameter. */
module Sponge {

  type byte = bv8

  const RATE: nat := 168
  const WIDTH: nat := 200
  const CAPACITY: nat := 32

  type State = s: seq<byte> | |s| == 200 witness seq(200, _ => 0)

  /** Sponge state and the position of the next byte in the current block. */
  datatype Node = Node(state: State, index: nat)

  function Zero(): (n: Node)
    ensures NodeOk(n) && n.index == 0 && forall k: nat :: k < 200 ==> n.state[k] == 0
  {
    Node(seq(200, _ => 0), 0)
  }

  ghost predicate NodeOk(n: Node) {
    n.index < RATE
  }

  function Xor(a: byte, b: byte): byte {
    a ^ b
  }

  /** Some bytes added into the state from position `at`. */
  function XorAt(s: State, at: nat, d: seq<byte>): (r: State)
    requires at + |d| <= RATE
    ensures forall k: nat :: k < 200 ==> r[k] == if at <= k < at + |d| then Xor(s[k], d[k - at]) else s[k]
  {
    seq(200, (k: nat) requires k < 200 => if at <= k < at + |d| then Xor(s[k], d[k - at]) else s[k])
  }

  /** A full block is permuted. */
  function Settle(perm: State -> State, s: State, index: nat): (n: Node)
    requires index <= RATE
    ensures NodeOk(n)
  {
    if index == RATE then Node(perm(s), 0) else Node(s, index)
  }

  function AbsorbByte(perm: State -> State, n: Node, b: byte): (r: Node)
    requires NodeOk(n)
    ensures NodeOk(r)
  {
    Settle(perm, XorAt(n.state, n.index, [b]), n.index + 1)
  }

  /** The meaning of absorbing: byte after byte. */
  function Absorbed(perm: State -> State, n: Node, d: seq<byte>): (r: Node)
    requires NodeOk(n)
    ensures NodeOk(r)
  {
    if d == [] then n else AbsorbByte(perm, Absorbed(perm, n, d[..|d| - 1]), d[|d| - 1])
  }

  lemma {:induction false} AbsorbConcat(perm: State -> State, n: Node, a: seq<byte>, b: seq<byte>)
    requires NodeOk(n)
    ensures Absorbed(perm, n, a + b) == Absorbed(perm, Absorbed(perm, n, a), b)
  {
    if b == [] {
      assert a + b == a;
    } else {
      assert (a + b)[..|a + b| - 1] == a + b[..|b| - 1];
      AbsorbConcat(perm, n, a, b[..|b| - 1]);
    }
  }

  /** Bytes that stay within the block are added in one go. */
  lemma {:induction false} AbsorbPart(perm: State -> State, n: Node, d: seq<byte>)
    requires NodeOk(n) && n.index + |d| <= RATE
    ensures Absorbed(perm, n, d) == Settle(perm, XorAt(n.state, n.index, d), n.index + |d|)
  {
    if d == [] {
      assert XorAt(n.state, n.index, d) == n.state;
    } else {
      var m := |d| - 1;
      AbsorbPart(perm, n, d[..m]);
      var s := XorAt(n.state, n.index, d[..m]);
      assert XorAt(s, n.index + m, [d[m]]) == XorAt(n.state, n.index, d);
    }
  }

  lemma XorZero(a: byte)
    ensures Xor(a, 0) == a
  {
  }

  /** Zero bytes only move the position. */
  lemma AbsorbZeros(perm: State -> State, n: Node, d: seq<byte>)
    requires NodeOk(n) && n.index + |d| <= RATE && forall k: nat :: k < |d| ==> d[k] == 0
    ensures Absorbed(perm, n, d) == Settle(perm, n.state, n.index + |d|)
  {
    AbsorbPart(perm, n, d);
    var s := XorAt(n.state, n.index, d);
    forall k: nat | k < 200 ensures s[k] == n.state[k] {
      XorZero(n.state[k]);
    }
    assert s == n.state;
  }

  // ----- TurboSHAKE128 -----

  /** The last block: domain byte, zeros, and the final bit. */
  function Closed(n: Node, domain: byte): (s: State)
    requires NodeOk(n)
  {
    XorAt(XorAt(n.state, n.index, [domain]), RATE - 1, [0x80])
  }

  /** What the code leaves in the state after a node: all output is a prefix of it. */
  function Squeezed(perm: State -> State, n: Node, domain: byte): (s: State)
    requires NodeOk(n)
  {
    perm(Closed(n, domain))
  }

  /** Message, domain byte and zeros up to a multiple of the rate. */
  ghost function Padded(m: seq<byte>, domain: byte): (p: seq<byte>)
    ensures |p| % RATE == 0 && |p| > |m| && m <= p
  {
    m + [domain] + seq(RATE - 1 - |m| % RATE, _ => 0)
  }

  /** The final bit is added to the last byte. */
  ghost function Sealed(p: seq<byte>): (q: seq<byte>)
    requires p != []
    ensures |q| == |p|
  {
    p[|p| - 1 := Xor(p[|p| - 1], 0x80)]
  }

  ghost function Blocks(perm: State -> State, s: State, p: seq<byte>): State
    requires |p| % RATE == 0
    decreases |p|
  {
    if |p| < RATE then s else Blocks(perm, perm(XorAt(s, 0, p[..RATE])), p[RATE..])
  }

  /** The state of TurboSHAKE128 before its first output byte. */
  ghost function Turbo(perm: State -> State, m: seq<byte>, domain: byte): State {
    Blocks(perm, Zero().state, Sealed(Padded(m, domain)))
  }

  /** Output of any length from a state: a block of 168 bytes from each of its successors. */
  ghost function Output(perm: State -> State, s: State, n: nat): (out: seq<byte>)
    ensures |out| == n
    decreases n
  {
    if n <= RATE then s[..n] else s[..RATE] + Output(perm, perm(s), n - RATE)
  }

  lemma XorTwice(a: byte, b: byte)
    ensures Xor(Xor(a, b), 0x80) == Xor(a, Xor(b, 0x80)) && Xor(a, 0x80) == Xor(a, Xor(0, 0x80)) && Xor(a, 0) == a
  {
  }

  /** Byte `k` of the only block of a message shorter than a block. */
  lemma SealedAt(m: seq<byte>, domain: byte, k: nat)
    requires |m| < RATE && k < RATE
    ensures |Padded(m, domain)| == RATE
    ensures var x := if k < |m| then m[k] else if k == |m| then domain else 0;
            Sealed(Padded(m, domain))[k] == if k == RATE - 1 then Xor(x, 0x80) else x
  {
  }

  /** The two ways to add the padding agree at byte `k`. */
  lemma {:induction false} ClosedAt(s: State, m: seq<byte>, domain: byte, k: nat)
    requires |m| < RATE && k < 200
    ensures |Padded(m, domain)| == RATE
    ensures Closed(Node(XorAt(s, 0, m), |m|), domain)[k] == XorAt(s, 0, Sealed(Padded(m, domain)))[k]
  {
    var y := XorAt(s, 0, m);
    var x := if k < |m| then m[k] else if k == |m| then domain else 0;
    XorTwice(s[k], x);
    if k < RATE {
      SealedAt(m, domain, k);
      assert XorAt(y, |m|, [domain])[k] == Xor(s[k], x);
    }
  }

  /** The padded tail of less than a block. */
  lemma ClosedBlock(perm: State -> State, s: State, m: seq<byte>, domain: byte)
    requires |m| < RATE
    ensures |Padded(m, domain)| == RATE
    ensures Closed(Absorbed(perm, Node(s, 0), m), domain) == XorAt(s, 0, Sealed(Padded(m, domain)))
  {
    AbsorbPart(perm, Node(s, 0), m);
    var a, b := Closed(Node(XorAt(s, 0, m), |m|), domain), XorAt(s, 0, Sealed(Padded(m, domain)));
    forall k: nat | k < 200 ensures a[k] == b[k] {
      ClosedAt(s, m, domain, k);
    }
    assert a == b;
  }

  lemma {:induction false} BlocksAbsorb(perm: State -> State, s: State, m: seq<byte>, domain: byte)
    ensures Blocks(perm, s, Sealed(Padded(m, domain))) == Squeezed(perm, Absorbed(perm, Node(s, 0), m), domain)
    decreases |m|
  {
    var p := Sealed(Padded(m, domain));
    if |m| < RATE {
      ClosedBlock(perm, s, m, domain);
      assert |p| == RATE && p[..RATE] == p;
    } else {
      var a, b := m[..RATE], m[RATE..];
      assert m == a + b && |b| % RATE == |m| % RATE;
      assert p[..RATE] == a && p[RATE..] == Sealed(Padded(b, domain));
      AbsorbConcat(perm, Node(s, 0), a, b);
      AbsorbPart(perm, Node(s, 0), a);
      BlocksAbsorb(perm, perm(XorAt(s, 0, a)), b, domain);
    }
  }

  /** A node that absorbed a message and was closed is TurboSHAKE128 of the message. */
  lemma NodeIsTurbo(perm: State -> State, m: seq<byte>, domain: byte)
    ensures Squeezed(perm, Absorbed(perm, Zero(), m), domain) == Turbo(perm, m, domain)
  {
    BlocksAbsorb(perm, Zero().state, m, domain);
  }

  // ----- The sponge object -----

  lemma {:induction false} AbsorbSlice(perm: State -> State, n: Node, data: seq<byte>, i: nat, len: nat)
    requires NodeOk(n) && i + len <= |data|
    ensures Absorbed(perm, n, data[..i + len]) == Absorbed(perm, Absorbed(perm, n, data[..i]), data[i..i + len])
  {
    assert data[..i + len] == data[..i] + data[i..i + len];
    AbsorbConcat(perm, n, data[..i], data[i..i + len]);
  }

  lemma XorJoin(s: State, at: nat, d: seq<byte>, i: nat, len: nat)
    requires i + len <= |d| && at + |d| <= RATE
    ensures XorAt(XorAt(s, at, d[..i]), at + i, d[i..i + len]) == XorAt(s, at, d[..i + len])
  {
  }

  /** A sponge updated in place. */
  class SpongeNode {
    const state: array<byte>
    var byteIOIndex: nat

    ghost predicate Valid()
      reads this
    {
      state.Length == WIDTH && byteIOIndex < RATE
    }

    ghost function Value(): (n: Node)
      requires Valid()
      reads this, state
      ensures NodeOk(n)
    {
      Node(state[..], byteIOIndex)
    }

    constructor ()
      ensures Valid() && fresh(state) && Value() == Zero()
    {
      state := new byte[200](_ => 0);
      byteIOIndex := 0;
    }

    method Clear()
      requires Valid()
      modifies this, state
      ensures Valid() && Value() == Zero()
    {
      for k := 0 to 200
        invariant forall j: nat :: j < k ==> state[j] == 0
      {
        state[k] := 0;
      }
      byteIOIndex := 0;
      assert state[..] == Zero().state;
    }

    method XorBytes(at: nat, d: seq<byte>)
      requires Valid() && at + |d| <= RATE
      modifies state
      ensures state[..] == XorAt(old(state[..]), at, d)
    {
      for j := 0 to |d|
        invariant forall k: nat :: k < 200 ==>
                    state[k] == if at <= k < at + j then Xor(old(state[k]), d[k - at]) else old(state[k])
      {
        state[at + j] := Xor(state[at + j], d[j]);
      }
      assert state[..] == XorAt(old(state[..]), at, d);
    }

    /** The same from inside a block, 64-bit lane by lane: each lane takes the bytes that fall into it. */
    method XorLanes(at: nat, d: seq<byte>)
      requires Valid() && at + |d| <= RATE
      modifies state
      ensures state[..] == XorAt(old(state[..]), at, d)
    {
      var sizeLeft: nat, lanePosition: nat, offsetInLane: nat, cur: nat := |d|, at / 8, at % 8, 0;
      assert state[..] == XorAt(old(state[..]), at, []);
      while sizeLeft > 0
        invariant cur + sizeLeft == |d| && offsetInLane < 8
        invariant sizeLeft > 0 ==> 8 * lanePosition + offsetInLane == at + cur
        invariant state[..] == XorAt(old(state[..]), at, d[..cur])
      {
        var bytesInLane := if 8 - offsetInLane > sizeLeft then sizeLeft else 8 - offsetInLane;
        XorJoin(old(state[..]), at, d, cur, bytesInLane);
        XorBytes(8 * lanePosition + offsetInLane, d[cur..cur + bytesInLane]);
        sizeLeft := sizeLeft - bytesInLane;
        lanePosition := lanePosition + 1;
        offsetInLane := 0;
        cur := cur + bytesInLane;
      }
      assert d[..cur] == d;
    }

    method Permute(perm: State -> State)
      requires Valid()
      modifies state
      ensures state[..] == perm(old(state[..]))
    {
      var s := perm(state[..]);
      for k := 0 to 200
        invariant forall j: nat :: j < k ==> state[j] == s[j]
      {
        state[k] := s[k];
      }
      assert state[..] == s;
    }

    /** Moves on by `len` bytes already added to the block. */
    method Advance(perm: State -> State, len: nat)
      requires Valid() && byteIOIndex + len <= RATE
      modifies this, state
      ensures Valid() && Value() == Settle(perm, old(state[..]), old(byteIOIndex) + len)
    {
      if byteIOIndex + len == RATE {
        Permute(perm);
        byteIOIndex := 0;
      } else {
        byteIOIndex := byteIOIndex + len;
      }
    }

    /** At most the rest of the current block. */
    method AbsorbPartial(perm: State -> State, d: seq<byte>)
      requires Valid() && byteIOIndex + |d| <= RATE
      modifies this, state
      ensures Valid() && Value() == Absorbed(perm, old(Value()), d)
    {
      AbsorbPart(perm, Value(), d);
      if byteIOIndex == 0 {
        XorBytes(0, d);
      } else {
        XorLanes(byteIOIndex, d);
      }
      Advance(perm, |d|);
    }

    /** Whole blocks, from the start of a block. */
    method AbsorbBlocks(perm: State -> State, data: seq<byte>, i0: nat) returns (i: nat)
      requires Valid() && byteIOIndex == 0 && i0 + RATE <= |data|
      modifies this, state
      ensures Valid() && i0 < i <= |data| && Value() == Absorbed(perm, old(Value()), data[i0..i])
    {
      i := i0;
      while |data| - i >= RATE
        invariant Valid() && byteIOIndex == 0 && i0 <= i <= |data| && (i == i0 ==> |data| - i >= RATE)
        invariant Value() == Absorbed(perm, old(Value()), data[i0..i])
      {
        ghost var n := Value();
        AbsorbPart(perm, n, data[i..i + RATE]);
        BlockTaken(perm, old(Value()), data, i0, i);
        XorBytes(0, data[i..i + RATE]);
        Permute(perm);
        i := i + RATE;
      }
    }

    method Absorb(perm: State -> State, data: seq<byte>)
      requires Valid()
      modifies this, state
      ensures Valid() && Value() == Absorbed(perm, old(Value()), data)
    {
      var i := 0;
      while i < |data|
        invariant Valid() && i <= |data| && Value() == Absorbed(perm, old(Value()), data[..i])
      {
        if byteIOIndex == 0 && |data| >= i + RATE {
          var j := AbsorbBlocks(perm, data, i);
          AbsorbSlice(perm, old(Value()), data, i, j - i);
          i := j;
        } else {
          var partialBlock := if |data| - i + byteIOIndex > RATE then RATE - byteIOIndex else |data| - i;
          AbsorbPartial(perm, data[i..i + partialBlock]);
          AbsorbSlice(perm, old(Value()), data, i, partialBlock);
          i := i + partialBlock;
        }
      }
      assert data[..i] == data;
    }

    /** Domain byte, final bit and permutation: the state then starts with the output. */
    method Close(perm: State -> State, domain: byte)
      requires Valid()
      modifies state
      ensures Valid() && state[..] == Squeezed(perm, old(Value()), domain)
    {
      XorBytes(byteIOIndex, [domain]);
      XorBytes(RATE - 1, [0x80]);
      Permute(perm);
    }
  }

  lemma {:induction false} BlockTaken(perm: State -> State, n: Node, data: seq<byte>, i0: nat, i: nat)
    requires NodeOk(n) && i0 <= i && i + RATE <= |data|
    ensures Absorbed(perm, n, data[i0..i + RATE]) == Absorbed(perm, Absorbed(perm, n, data[i0..i]), data[i..i + RATE])
  {
    assert data[i0..i + RATE] == data[i0..i] + data[i..i + RATE];
    AbsorbConcat(perm, n, data[i0..i], data[i..i + RATE]);
  }
}
