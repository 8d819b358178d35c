/** KangarooTwelve in one call, by leaves and as a stream: all compute KT128 of the message. */
module KangarooTwelve {
  import opened Sponge
  import opened KangarooTree
  import opened KangarooReference

  const MAX64: nat := 0x1_0000_0000_0000_0000

  // ----- The count of chaining values -----

  /** `x` shifted right by `k` bytes. */
  function Down(x: nat, k: nat): nat {
    if k == 0 then x else Down(x / 256, k - 1)
  }

  lemma {:induction false} BigEndianAt(x: nat, i: nat)
    requires 1 <= i <= |BigEndian(x)|
    ensures BigEndian(x)[i - 1] == (Down(x, |BigEndian(x)| - i) % 256) as byte
  {
    if i < |BigEndian(x)| { BigEndianAt(x / 256, i); }
  }

  /** 256^k. */
  function Cap(k: nat): nat {
    if k == 0 then 1 else 256 * Cap(k - 1)
  }

  /** The number of bytes of a 64-bit count, at most eight. */
  method CountBytes(x: nat) returns (n: nat)
    requires x < MAX64
    ensures n == |BigEndian(x)| <= 8
  {
    n := 0;
    var v: nat := x;
    assert Cap(8) == MAX64;
    while v > 0 && n < 8
      invariant n <= 8 && v < Cap(8 - n) && |BigEndian(x)| == n + |BigEndian(v)|
      decreases 8 - n
    {
      n := n + 1;
      v := v / 256;
    }
  }

  /** length_encode of the count followed by two 0xFF bytes. */
  method EncodeCount(blockNumber: nat) returns (suffix: seq<byte>)
    requires blockNumber < MAX64
    ensures suffix == LengthEncode(blockNumber) + [0xFF, 0xFF]
    ensures 3 <= |suffix| <= 11
    ensures var n := |suffix| - 3;
            && suffix[n] == n as byte && suffix[n + 1..] == [0xFF, 0xFF]
            && exists ds: seq<nat> ::
                 Writes(suffix[..n], ds) && Number(ds) == blockNumber && (blockNumber > 0 ==> ds != [] && ds[0] > 0)
  {
    suffix := WriteCount(blockNumber);
    SuffixDecodes(blockNumber, suffix);
  }

  /** The bytes as the code writes them into its buffer. */
  method WriteCount(blockNumber: nat) returns (suffix: seq<byte>)
    requires blockNumber < MAX64
    ensures suffix == LengthEncode(blockNumber) + [0xFF, 0xFF] && |BigEndian(blockNumber)| <= 8
  {
    var n := CountBytes(blockNumber);
    var encbuf := new byte[11];
    for i := 1 to n + 1
      invariant forall j: nat :: j < i - 1 ==> encbuf[j] == BigEndian(blockNumber)[j]
    {
      BigEndianAt(blockNumber, i);
      encbuf[i - 1] := (Down(blockNumber, n - i) % 256) as byte;
    }
    encbuf[n] := (n % 256) as byte;
    encbuf[n + 1] := 0xFF;
    encbuf[n + 2] := 0xFF;
    suffix := encbuf[..n + 3];
    assert suffix == BigEndian(blockNumber) + [(n % 256) as byte] + [0xFF, 0xFF];
  }

  lemma SuffixDecodes(x: nat, suffix: seq<byte>)
    requires |BigEndian(x)| <= 8 && suffix == LengthEncode(x) + [0xFF, 0xFF]
    ensures 3 <= |suffix| <= 11
    ensures var n := |suffix| - 3;
            && suffix[n] == n as byte && suffix[n + 1..] == [0xFF, 0xFF]
            && exists ds: seq<nat> :: Writes(suffix[..n], ds) && Number(ds) == x && (x > 0 ==> ds != [] && ds[0] > 0)
  {
    BigEndianWrites(x);
    DigitsNumber(x);
    assert suffix[..|BigEndian(x)|] == BigEndian(x);
    assert Writes(suffix[..|suffix| - 3], Digits(x));
  }

  // ----- Steps on the nodes -----

  lemma {:induction false} MarkerSplit(perm: State -> State, n: Node)
    requires NodeOk(n) && n.index + 8 < RATE
    ensures Absorbed(perm, n, Marker()) == Node(XorAt(n.state, n.index, [3]), n.index + 8)
  {
    AbsorbConcat(perm, n, [3], Zeros(7));
    AbsorbPart(perm, n, [3]);
    AbsorbZeros(perm, Absorbed(perm, n, [3]), Zeros(7));
  }

  /** The position after a message depends only on its length. */
  lemma {:induction false} IndexAfter(perm: State -> State, d: seq<byte>)
    ensures Absorbed(perm, Zero(), d).index == |d| % RATE
  {
    if d != [] { IndexAfter(perm, d[..|d| - 1]); }
  }

  /** Marks the end of the first chunk: byte 3, then on to the next lane, or to the next block. */
  method MarkFirstChunk(perm: State -> State, node: SpongeNode)
    requires node.Valid() && (node.byteIOIndex < 160 || node.byteIOIndex == RATE - 1)
    modifies node, node.state
    ensures node.Valid()
    ensures old(node.byteIOIndex) % 8 == 0 ==> node.Value() == Absorbed(perm, old(node.Value()), Marker())
    ensures old(node.byteIOIndex) == RATE - 1 ==> node.Value() == Absorbed(perm, old(node.Value()), [3])
  {
    ghost var n := node.Value();
    node.XorBytes(node.byteIOIndex, [3]);
    if node.byteIOIndex + 1 == RATE {
      node.Permute(perm);
      node.byteIOIndex := 0;
    } else {
      node.byteIOIndex := (node.byteIOIndex + 1 + 7) / 8 * 8;
    }
    AbsorbPart(perm, n, [3]);
    if n.index % 8 == 0 {
      MarkerSplit(perm, n);
    }
  }

  /** Closes the leaf in the queue node and absorbs its chaining value into the final node. */
  method ChainLeaf(perm: State -> State, queueNode: SpongeNode, finalNode: SpongeNode)
    requires queueNode.Valid() && finalNode.Valid() && queueNode != finalNode && queueNode.state != finalNode.state
    modifies queueNode.state, finalNode, finalNode.state
    ensures queueNode.Valid() && finalNode.Valid() && queueNode.byteIOIndex == old(queueNode.byteIOIndex)
    ensures finalNode.Value()
              == Absorbed(perm, old(finalNode.Value()), Squeezed(perm, old(queueNode.Value()), LEAF)[..CAPACITY])
  {
    queueNode.Close(perm, LEAF);
    finalNode.Absorb(perm, queueNode.state[..CAPACITY]);
  }

  /** The chaining value of one leaf, computed on its own. */
  method Leaf(perm: State -> State, leaf: seq<byte>) returns (chainingValue: seq<byte>)
    requires |leaf| == CHUNK
    ensures chainingValue == ChainingValue(perm, leaf)
  {
    var node := new SpongeNode();
    node.Absorb(perm, leaf);
    node.Close(perm, LEAF);
    NodeIsTurbo(perm, leaf, LEAF);
    chainingValue := node.state[..CAPACITY];
  }

  /** The pending leaf, if any, is chained: the final node then holds the whole trunk. */
  method ChainPending(perm: State -> State, finalNode: SpongeNode, queueNode: SpongeNode, blockNumber: nat,
                      queueAbsorbedLen: nat, ghost s: seq<byte>)
    returns (count: nat)
    requires queueNode.Valid() && finalNode.Valid() && queueNode != finalNode && queueNode.state != finalNode.state
    requires |s| > CHUNK && blockNumber >= 1
    requires Holds(perm, Tree(finalNode.Value(), queueNode.Value(), blockNumber, queueAbsorbedLen), s)
    modifies queueNode.state, finalNode, finalNode.state
    ensures finalNode.Valid() && count == Leaves(|s| - CHUNK) && TrunkIn(perm, finalNode.Value(), s)
  {
    TrunkDone(perm, Tree(finalNode.Value(), queueNode.Value(), blockNumber, queueAbsorbedLen), s);
    count := blockNumber - 1;
    if queueAbsorbedLen > 0 {
      ChainLeaf(perm, queueNode, finalNode);
      count := count + 1;
    }
  }

  /** The last steps in tree mode: pending leaf, count, and the closing of the final node. */
  method FinishTree(perm: State -> State, finalNode: SpongeNode, queueNode: SpongeNode, blockNumber: nat,
                    queueAbsorbedLen: nat, ghost s: seq<byte>)
    requires queueNode.Valid() && finalNode.Valid() && queueNode != finalNode && queueNode.state != finalNode.state
    requires CHUNK < |s| < MAX64 && blockNumber >= 1
    requires Holds(perm, Tree(finalNode.Value(), queueNode.Value(), blockNumber, queueAbsorbedLen), s)
    modifies queueNode.state, finalNode, finalNode.state
    ensures finalNode.Valid() && finalNode.state[..] == TreeHash(perm, s)
  {
    var count := ChainPending(perm, finalNode, queueNode, blockNumber, queueAbsorbedLen, s);
    var suffix := EncodeCount(count);
    TreeDigest(perm, finalNode.Value(), s, suffix);
    finalNode.Absorb(perm, suffix);
    finalNode.Close(perm, FINAL);
  }

  // ----- The stream -----

  lemma FirstChunkIndex(perm: State -> State, t: Tree, s: seq<byte>)
    requires Holds(perm, t, s) && t.blockNumber == 0 && |s| == CHUNK
    ensures t.finalNode.index == 128
  {
    IndexAfter(perm, s);
  }

  lemma Slices(m: seq<byte>, input: seq<byte>, i0: nat, j: nat, i: nat)
    requires i0 <= j <= i <= |input|
    ensures m + input[i0..j] + input[j..i] == m + input[i0..i]
  {
    assert input[i0..j] + input[j..i] == input[i0..i];
  }

  /** Hashes a message handed over in pieces. */
  class Stream {
    const perm: State -> State
    const finalNode: SpongeNode
    const queueNode: SpongeNode
    var blockNumber: nat
    var queueAbsorbedLen: nat
    var finalized: bool
    ghost var message: seq<byte>

    ghost predicate Nodes()
      reads this, finalNode, queueNode
    {
      finalNode.Valid() && queueNode.Valid() && finalNode != queueNode && finalNode.state != queueNode.state
    }

    ghost function Value(): (t: Tree)
      requires Nodes()
      reads this, finalNode, queueNode, finalNode.state, queueNode.state
    {
      Tree(finalNode.Value(), queueNode.Value(), blockNumber, queueAbsorbedLen)
    }

    /** The nodes hold the message so far. */
    ghost predicate Holding()
      reads this, finalNode, queueNode, finalNode.state, queueNode.state
    {
      Nodes() && !finalized && Holds(perm, Value(), message)
    }

    ghost predicate Valid()
      reads this, finalNode, queueNode, finalNode.state, queueNode.state
    {
      Holding() && (blockNumber >= 1 ==> |message| > CHUNK)
    }

    constructor (perm: State -> State)
      ensures Valid() && message == [] && fresh(finalNode) && fresh(queueNode) && fresh(finalNode.state)
      ensures fresh(queueNode.state)
      ensures this.perm == perm
    {
      this.perm := perm;
      finalNode := new SpongeNode();
      queueNode := new SpongeNode();
      blockNumber := 0;
      queueAbsorbedLen := 0;
      finalized := false;
      message := [];
    }

    method FinishFirstChunk()
      requires Holding() && blockNumber == 0 && |message| == CHUNK
      modifies this, finalNode, finalNode.state
      ensures Holding() && blockNumber == 1 && queueAbsorbedLen == 0 && message == old(message)
    {
      ghost var t := Value();
      FirstChunkIndex(perm, t, message);
      MarkFirstChunk(perm, finalNode);
      blockNumber := 1;
      queueAbsorbedLen := 0;
      FinishFirst(perm, t, message, Value());
    }

    /** As much of the input as fits into the first chunk. */
    method UpdateFirst(data: seq<byte>)
      requires Holding() && blockNumber == 0 && queueAbsorbedLen + |data| <= CHUNK
      modifies this, finalNode, finalNode.state
      ensures Holding() && blockNumber == 0 && message == old(message) + data
    {
      ghost var t := Value();
      finalNode.Absorb(perm, data);
      queueAbsorbedLen := queueAbsorbedLen + |data|;
      FirstPart(perm, t, message, data, Value());
      message := message + data;
    }

    /** As much of the input as fits into the current leaf. */
    method UpdateLeaf(data: seq<byte>)
      requires Holding() && blockNumber >= 1 && queueAbsorbedLen + |data| <= CHUNK
      modifies this, finalNode, queueNode, finalNode.state, queueNode.state
      ensures Holding() && blockNumber >= 1 && message == old(message) + data
    {
      ghost var t := Value();
      if queueAbsorbedLen == 0 {
        queueNode.Clear();
      }
      queueNode.Absorb(perm, data);
      queueAbsorbedLen := queueAbsorbedLen + |data|;
      if queueAbsorbedLen == CHUNK {
        ChainLeaf(perm, queueNode, finalNode);
        blockNumber := blockNumber + 1;
        queueAbsorbedLen := 0;
        QueueFull(perm, t, message, data, Value());
      } else {
        QueuePart(perm, t, message, data, Value());
      }
      message := message + data;
    }

    /** The part of the input that goes to the first chunk, and the switch to tree mode if more follows. */
    method UpdateStart(input: seq<byte>) returns (i: nat)
      requires Valid() && blockNumber == 0
      modifies this, finalNode, finalNode.state
      ensures i <= |input| && Holding() && message == old(message) + input[..i]
      ensures blockNumber == if i < |input| then 1 else 0
    {
      i := if |input| < CHUNK - queueAbsorbedLen then |input| else CHUNK - queueAbsorbedLen;
      UpdateFirst(input[..i]);
      if queueAbsorbedLen == CHUNK && i < |input| {
        FinishFirstChunk();
      }
    }

    method UpdateNext(input: seq<byte>, i: nat) returns (i': nat)
      requires Holding() && blockNumber >= 1 && i < |input|
      modifies this, finalNode, queueNode, finalNode.state, queueNode.state
      ensures Holding() && blockNumber >= 1 && i < i' <= |input| && message == old(message) + input[i..i']
    {
      var len := if |input| - i < CHUNK - queueAbsorbedLen then |input| - i else CHUNK - queueAbsorbedLen;
      i' := i + len;
      UpdateLeaf(input[i..i']);
    }

    method UpdateRest(input: seq<byte>, i0: nat)
      requires Holding() && blockNumber >= 1 && i0 <= |input|
      modifies this, finalNode, queueNode, finalNode.state, queueNode.state
      ensures Holding() && blockNumber >= 1 && message == old(message) + input[i0..]
    {
      var i := i0;
      while i < |input|
        invariant Holding() && blockNumber >= 1 && i0 <= i <= |input| && message == old(message) + input[i0..i]
      {
        ghost var j := i;
        i := UpdateNext(input, i);
        Slices(old(message), input, i0, j, i);
      }
    }

    method Update(input: seq<byte>)
      requires Valid()
      modifies this, finalNode, queueNode, finalNode.state, queueNode.state
      ensures Valid() && message == old(message) + input
    {
      var i := 0;
      if blockNumber == 0 {
        i := UpdateStart(input);
      }
      assert input[..i] + input[i..] == input;
      if i < |input| {
        UpdateRest(input, i);
      }
    }

    /** At a leaf boundary a full leaf may be given by its chaining value. */
    method AbsorbChainingValue(chainingValue: seq<byte>, ghost leaf: seq<byte>)
      requires Valid() && queueAbsorbedLen == (if blockNumber > 0 then 0 else CHUNK)
      requires |leaf| == CHUNK && chainingValue == ChainingValue(perm, leaf)
      modifies this, finalNode, finalNode.state
      ensures Valid() && message == old(message) + leaf
    {
      if blockNumber == 0 {
        FinishFirstChunk();
      }
      ghost var t := Value();
      blockNumber := blockNumber + 1;
      finalNode.Absorb(perm, chainingValue);
      LeafDone(perm, t, message, leaf, Value());
      message := message + leaf;
    }

    /** The digest of everything handed over. */
    method Finalize() returns (output: seq<byte>)
      requires Valid() && |message| + 1 < MAX64
      modifies this, finalNode, queueNode, finalNode.state, queueNode.state
      ensures output == Kt128(perm, old(message), 32) && finalized
    {
      Update([0]);
      finalized := true;
      if blockNumber > 0 {
        FinishTree(perm, finalNode, queueNode, blockNumber, queueAbsorbedLen, message);
      } else {
        SingleDigest(perm, Value(), message);
        finalNode.Close(perm, SINGLE);
      }
      output := finalNode.state[..32];
    }
  }
}
