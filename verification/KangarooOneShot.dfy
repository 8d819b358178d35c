/** The one-call form of KangarooTwelve, and its agreement with the stream. */
module KangarooOneShot {
  import opened Sponge
  import opened KangarooTree
  import opened KangarooTwelve

  /** Both nodes and the counters, as a tree value. */
  ghost predicate Holding(perm: State -> State, finalNode: SpongeNode, queueNode: SpongeNode, blockNumber: nat,
                          queueAbsorbedLen: nat, s: seq<byte>)
    reads finalNode, queueNode, finalNode.state, queueNode.state
  {
    && finalNode.Valid() && queueNode.Valid() && finalNode != queueNode && finalNode.state != queueNode.state
    && Holds(perm, Tree(finalNode.Value(), queueNode.Value(), blockNumber, queueAbsorbedLen), s)
  }

  /** The leaf starting at `i`: chained if full, left in the queue node otherwise. */
  method TakeLeaf(perm: State -> State, finalNode: SpongeNode, queueNode: SpongeNode, blockNumber: nat,
                  input: seq<byte>, i: nat)
    returns (i': nat, blockNumber': nat, queueAbsorbedLen: nat)
    requires i < |input| && blockNumber >= 1 && Holding(perm, finalNode, queueNode, blockNumber, 0, input[..i])
    modifies finalNode, queueNode, finalNode.state, queueNode.state
    ensures i < i' <= |input| && blockNumber' >= 1 && (i' < |input| ==> queueAbsorbedLen == 0)
    ensures Holding(perm, finalNode, queueNode, blockNumber', queueAbsorbedLen, input[..i'])
  {
    ghost var t := Tree(finalNode.Value(), queueNode.Value(), blockNumber, 0);
    var len := if |input| - i < CHUNK then |input| - i else CHUNK;
    i' := i + len;
    ghost var d := input[i..i'];
    assert input[..i] + d == input[..i'];
    queueNode.Clear();
    queueNode.Absorb(perm, input[i..i']);
    if len == CHUNK {
      blockNumber', queueAbsorbedLen := blockNumber + 1, 0;
      ChainLeaf(perm, queueNode, finalNode);
      queueNode.byteIOIndex := CAPACITY;
      QueueFull(perm, t, input[..i], d, Tree(finalNode.Value(), queueNode.Value(), blockNumber', 0));
    } else {
      blockNumber', queueAbsorbedLen := blockNumber, len;
      QueuePart(perm, t, input[..i], d, Tree(finalNode.Value(), queueNode.Value(), blockNumber', len));
    }
  }

  /** All leaves after the first chunk. */
  method TakeLeaves(perm: State -> State, finalNode: SpongeNode, queueNode: SpongeNode, input: seq<byte>)
    returns (blockNumber: nat, queueAbsorbedLen: nat)
    requires |input| > CHUNK && Holding(perm, finalNode, queueNode, 1, 0, input[..CHUNK])
    modifies finalNode, queueNode, finalNode.state, queueNode.state
    ensures blockNumber >= 1 && Holding(perm, finalNode, queueNode, blockNumber, queueAbsorbedLen, input)
  {
    blockNumber, queueAbsorbedLen := 1, 0;
    var i := CHUNK;
    while i < |input|
      invariant i <= |input| && blockNumber >= 1 && (i < |input| ==> queueAbsorbedLen == 0)
      invariant Holding(perm, finalNode, queueNode, blockNumber, queueAbsorbedLen, input[..i])
    {
      i, blockNumber, queueAbsorbedLen := TakeLeaf(perm, finalNode, queueNode, blockNumber, input, i);
    }
    assert input[..i] == input;
  }

  /** The zero byte that encodes the empty customization string, in tree mode: only positions move. */
  method AddSuffix(perm: State -> State, finalNode: SpongeNode, queueNode: SpongeNode, blockNumber: nat,
                   queueAbsorbedLen: nat, ghost input: seq<byte>)
    returns (blockNumber': nat, queueAbsorbedLen': nat)
    requires blockNumber >= 1 && Holding(perm, finalNode, queueNode, blockNumber, queueAbsorbedLen, input)
    modifies finalNode, queueNode, finalNode.state, queueNode.state
    ensures blockNumber' >= 1 && Holding(perm, finalNode, queueNode, blockNumber', queueAbsorbedLen', input + [0])
  {
    ghost var t := Tree(finalNode.Value(), queueNode.Value(), blockNumber, queueAbsorbedLen);
    ghost var queued := Queued(perm, t, [0]);
    blockNumber' := blockNumber;
    if queueAbsorbedLen > 0 {
      AbsorbZeros(perm, queueNode.Value(), [0]);
      queueNode.Advance(perm, 1);
      queueAbsorbedLen' := queueAbsorbedLen + 1;
      if queueAbsorbedLen' == CHUNK {
        blockNumber', queueAbsorbedLen' := blockNumber + 1, 0;
        ChainLeaf(perm, queueNode, finalNode);
        queueNode.byteIOIndex := CAPACITY;
        QueueFull(perm, t, input, [0], Tree(finalNode.Value(), queueNode.Value(), blockNumber', 0));
      } else {
        QueuePart(perm, t, input, [0], Tree(finalNode.Value(), queueNode.Value(), blockNumber', queueAbsorbedLen'));
      }
    } else {
      AbsorbZeros(perm, Zero(), [0]);
      queueNode.Clear();
      queueNode.byteIOIndex := 1;
      queueAbsorbedLen' := 1;
      QueuePart(perm, t, input, [0], Tree(finalNode.Value(), queueNode.Value(), blockNumber', 1));
    }
  }

  /** The first chunk, and the marker behind it when it is full. */
  method TakeFirst(perm: State -> State, finalNode: SpongeNode, queueNode: SpongeNode, input: seq<byte>)
    returns (len: nat)
    requires finalNode.Valid() && queueNode.Valid() && finalNode != queueNode && finalNode.state != queueNode.state
    requires finalNode.Value() == Zero()
    modifies finalNode, finalNode.state
    ensures len == if CHUNK < |input| then CHUNK else |input|
    ensures len < CHUNK ==> Holding(perm, finalNode, queueNode, 0, len, input)
    ensures len == CHUNK ==> Holding(perm, finalNode, queueNode, 1, 0, input[..len])
  {
    len := if CHUNK < |input| then CHUNK else |input|;
    assert len < CHUNK ==> input[..len] == input;
    finalNode.Absorb(perm, input[..len]);
    if len == CHUNK {
      ghost var t := Tree(finalNode.Value(), queueNode.Value(), 0, len);
      FirstChunkIndex(perm, t, input[..len]);
      MarkFirstChunk(perm, finalNode);
      FinishFirst(perm, t, input[..len], Tree(finalNode.Value(), queueNode.Value(), 1, 0));
    }
  }

  /** A message below one chunk, with its suffix, is hashed by the final node alone. */
  method FinishSingle(perm: State -> State, finalNode: SpongeNode, ghost queueNode: SpongeNode, ghost input: seq<byte>)
    requires |input| < CHUNK && Holding(perm, finalNode, queueNode, 0, |input|, input)
    modifies finalNode, finalNode.state
    ensures finalNode.Valid() && finalNode.state[..] == Kt128State(perm, input)
  {
    ghost var t := Tree(finalNode.Value(), queueNode.Value(), 0, |input|);
    AbsorbZeros(perm, finalNode.Value(), [0]);
    finalNode.Advance(perm, 1);
    ghost var t' := Tree(finalNode.Value(), queueNode.Value(), 0, |input| + 1);
    FirstPart(perm, t, input, [0], t');
    SingleDigest(perm, t', input + [0]);
    finalNode.Close(perm, SINGLE);
  }

  /** The output is copied out of one state, and out of the memory `behind` it for more than 200 bytes. */
  ghost function Copied(perm: State -> State, input: seq<byte>, behind: seq<byte>, n: nat): (out: seq<byte>)
    requires n <= WIDTH + |behind|
    ensures |out| == n
  {
    (Kt128State(perm, input) + behind)[..n]
  }

  /** When the copied bytes are KT128: up to one block of output, or if the bytes behind the first block happen to
      be those of the next states. */
  lemma CopiedIsKt128(perm: State -> State, input: seq<byte>, behind: seq<byte>, n: nat)
    requires n <= WIDTH + |behind|
    ensures Copied(perm, input, behind, n) == Kt128(perm, input, n)
       <==> n <= RATE || Copied(perm, input, behind, n)[RATE..] == Output(perm, perm(Kt128State(perm, input)), n - RATE)
  {
    var s, c := Kt128State(perm, input), Copied(perm, input, behind, n);
    if n <= RATE {
      assert c == s[..n];
    } else {
      var rest := Output(perm, perm(s), n - RATE);
      assert c == s[..RATE] + c[RATE..] && Kt128(perm, input, n) == s[..RATE] + rest;
      assert (s[..RATE] + rest)[RATE..] == rest;
    }
  }

  /** For up to 200 bytes only the state itself matters. */
  lemma CopiedFromState(perm: State -> State, input: seq<byte>, behind: seq<byte>, n: nat)
    requires RATE < n <= WIDTH
    ensures var s := Kt128State(perm, input);
            Copied(perm, input, behind, n) == Kt128(perm, input, n) <==> s[RATE..n] == perm(s)[..n - RATE]
  {
    var s := Kt128State(perm, input);
    CopiedIsKt128(perm, input, behind, n);
    assert Copied(perm, input, behind, n)[RATE..] == s[RATE..n];
  }

  /** `perm` is a permutation of the states. */
  ghost predicate Bijective(perm: State -> State) {
    && (forall s: State, t: State :: perm(s) == perm(t) ==> s == t)
    && forall t: State :: Reached(perm, t)
  }

  ghost predicate Reached(perm: State -> State, t: State) {
    exists s: State :: perm(s) == t
  }

  /** A permutation that moves byte 0 to place 168, and byte 168 to place 0 with one bit flipped. */
  function Cross(s: State): State {
    s[0 := Xor(s[RATE], 1)][RATE := s[0]]
  }

  function Back(s: State): State {
    s[0 := s[RATE]][RATE := Xor(s[0], 1)]
  }

  lemma FlipTwice(b: byte)
    ensures Xor(Xor(b, 1), 1) == b && Xor(b, 1) != b
  {
  }

  lemma BackOfCross(s: State)
    ensures Back(Cross(s)) == s
  {
    var t := Cross(s);
    assert t[0] == Xor(s[RATE], 1) && t[RATE] == s[0];
    FlipTwice(s[RATE]);
    assert forall k: nat :: k < 200 ==> Back(t)[k] == s[k];
  }

  lemma CrossOfBack(s: State)
    ensures Cross(Back(s)) == s
  {
    var t := Back(s);
    assert t[0] == s[RATE] && t[RATE] == Xor(s[0], 1);
    FlipTwice(s[0]);
    assert forall k: nat :: k < 200 ==> Cross(t)[k] == s[k];
  }

  lemma CrossBijective()
    ensures Bijective(Cross)
  {
    forall s: State, t: State | Cross(s) == Cross(t) ensures s == t {
      BackOfCross(s);
      BackOfCross(t);
    }
    forall t: State ensures Reached(Cross, t) {
      CrossOfBack(t);
    }
  }

  lemma OutputStart(perm: State -> State, s: State, n: nat)
    requires n > 0
    ensures Output(perm, s, n)[0] == s[0]
  {
  }

  /** Beyond one block no message and no memory save the copy: with the permutation `Cross` byte 168 is wrong. */
  lemma CopiedFails(input: seq<byte>, behind: seq<byte>, n: nat)
    requires RATE < n <= WIDTH + |behind|
    ensures Bijective(Cross) && Copied(Cross, input, behind, n) != Kt128(Cross, input, n)
  {
    var s := Kt128State(Cross, input);
    CrossBijective();
    OutputStart(Cross, Cross(s), n - RATE);
    FlipTwice(s[RATE]);
    assert Copied(Cross, input, behind, n)[RATE] == s[RATE];
    assert Kt128(Cross, input, n)[RATE] == Xor(s[RATE], 1);
  }

  /** So for every permutation the copied bytes are KT128 exactly up to 168 bytes of output. */
  lemma CopiedExactly(input: seq<byte>, behind: seq<byte>, n: nat)
    requires n <= WIDTH + |behind|
    ensures (forall perm: State -> State ::
               Bijective(perm) ==> Copied(perm, input, behind, n) == Kt128(perm, input, n))
       <==> n <= RATE
  {
    if n <= RATE {
      forall perm: State -> State ensures Copied(perm, input, behind, n) == Kt128(perm, input, n) {
        CopiedIsKt128(perm, input, behind, n);
      }
    } else {
      CopiedFails(input, behind, n);
    }
  }

  /** The one-call hash. Up to 168 bytes of output are KT128 of `input`; any more are the rest of the state, and what
      lies `behind` it in memory. */
  method Hash(perm: State -> State, input: seq<byte>, behind: seq<byte>, outputByteLen: nat) returns (output: seq<byte>)
    requires |input| < 0x1_0000_0000 && outputByteLen <= WIDTH + |behind|
    ensures output == Copied(perm, input, behind, outputByteLen)
    ensures outputByteLen <= RATE ==> output == Kt128(perm, input, outputByteLen)
  {
    var finalNode := new SpongeNode();
    var queueNode := new SpongeNode();
    var len := TakeFirst(perm, finalNode, queueNode, input);
    if len == CHUNK {
      assert |input| == CHUNK ==> input[..len] == input;
      var blockNumber, queueAbsorbedLen := 1, 0;
      if len < |input| {
        blockNumber, queueAbsorbedLen := TakeLeaves(perm, finalNode, queueNode, input);
      }
      blockNumber, queueAbsorbedLen := AddSuffix(perm, finalNode, queueNode, blockNumber, queueAbsorbedLen, input);
      FinishTree(perm, finalNode, queueNode, blockNumber, queueAbsorbedLen, input + [0]);
    } else {
      FinishSingle(perm, finalNode, queueNode, input);
    }
    CopiedIsKt128(perm, input, behind, outputByteLen);
    output := (finalNode.state[..] + behind)[..outputByteLen];
  }

  /** The digest of a stream equals the digest in one call, for every split of the message into pieces;
      `leaf[j]` says that piece `j` is handed over as the chaining value of a full leaf where that is allowed. */
  method StreamAgrees(perm: State -> State, pieces: seq<seq<byte>>, leaf: seq<bool>)
    returns (digest: seq<byte>, oneShot: seq<byte>)
    requires |leaf| == |pieces| && |Joined(pieces)| < 0x1_0000_0000
    ensures digest == oneShot == Kt128(perm, Joined(pieces), 32)
  {
    var stream := new Stream(perm);
    for j := 0 to |pieces|
      invariant stream.Valid() && fresh(stream) && fresh(stream.finalNode) && fresh(stream.queueNode)
      invariant fresh(stream.finalNode.state) && fresh(stream.queueNode.state) && stream.perm == perm
      invariant stream.message == Joined(pieces[..j])
    {
      JoinedNext(pieces, j);
      if leaf[j] && |pieces[j]| == CHUNK && stream.queueAbsorbedLen == (if stream.blockNumber > 0 then 0 else CHUNK) {
        var chainingValue := Leaf(perm, pieces[j]);
        stream.AbsorbChainingValue(chainingValue, pieces[j]);
      } else {
        stream.Update(pieces[j]);
      }
    }
    assert pieces[..|pieces|] == pieces;
    digest := stream.Finalize();
    var whole := Concat(pieces);
    oneShot := Hash(perm, whole, [], 32);
  }

  ghost function Joined(pieces: seq<seq<byte>>): seq<byte> {
    if pieces == [] then [] else Joined(pieces[..|pieces| - 1]) + pieces[|pieces| - 1]
  }

  lemma JoinedNext(pieces: seq<seq<byte>>, j: nat)
    requires j < |pieces|
    ensures Joined(pieces[..j + 1]) == Joined(pieces[..j]) + pieces[j]
  {
    assert pieces[..j + 1][..j] == pieces[..j];
  }

  method Concat(pieces: seq<seq<byte>>) returns (whole: seq<byte>)
    ensures whole == Joined(pieces)
  {
    whole := [];
    for j := 0 to |pieces|
      invariant whole == Joined(pieces[..j])
    {
      JoinedNext(pieces, j);
      whole := whole + pieces[j];
    }
    assert pieces[..|pieces|] == pieces;
  }
}
