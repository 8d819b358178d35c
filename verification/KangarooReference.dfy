/** TurboSHAKE128, the length encoding and KT128 with the constants of RFC 9861 written out. */
module KangarooReference {
  import opened Sponge
  import opened KangarooTree

  // ----- TurboSHAKE128, section 2 -----

  /** The state after `n` blocks of 168 bytes, from 200 zero bytes. */
  ghost function Rounds(perm: State -> State, p: seq<byte>, n: nat): State
    requires 168 * n <= |p|
  {
    if n == 0 then seq(200, _ => 0)
    else
      var s := Rounds(perm, p, n - 1);
      perm(seq(200, (k: nat) requires k < 200 => if k < 168 then s[k] ^ p[168 * (n - 1) + k] else s[k]))
  }

  lemma {:induction false} BlocksFrom(perm: State -> State, p: seq<byte>, n: nat)
    requires |p| % 168 == 0 && 168 * n <= |p|
    ensures Blocks(perm, Rounds(perm, p, 0), p) == Blocks(perm, Rounds(perm, p, n), p[168 * n..])
  {
    if n == 0 {
      assert p[0..] == p;
    } else {
      BlocksFrom(perm, p, n - 1);
      OneBlock(perm, p, n);
    }
  }

  lemma OneBlock(perm: State -> State, p: seq<byte>, n: nat)
    requires n > 0 && |p| % 168 == 0 && 168 * n <= |p|
    ensures Blocks(perm, Rounds(perm, p, n - 1), p[168 * (n - 1)..]) == Blocks(perm, Rounds(perm, p, n), p[168 * n..])
  {
    var s, rest := Rounds(perm, p, n - 1), p[168 * (n - 1)..];
    assert rest[168..] == p[168 * n..];
    assert XorAt(s, 0, rest[..168])
        == seq(200, (k: nat) requires k < 200 => if k < 168 then s[k] ^ p[168 * (n - 1) + k] else s[k]);
  }

  lemma PaddedIs(m: seq<byte>, domain: byte, p: seq<byte>)
    requires |p| == 168 * (|m| / 168 + 1)
    requires forall i: nat :: i < |p| ==>
               p[i] == (if i < |m| then m[i] else if i == |m| then domain else 0) ^ (if i == |p| - 1 then 0x80 else 0)
    ensures Sealed(Padded(m, domain)) == p
  {
    var q := Sealed(Padded(m, domain));
    assert |q| == |p|;
    forall i: nat | i < |q| ensures q[i] == p[i] {
      XorZero(if i < |m| then m[i] else if i == |m| then domain else 0);
    }
  }

  /** Message, domain byte, zeros up to a multiple of 168 bytes, 0x80 added to the last byte, block after block. */
  lemma TurboIsRounds(perm: State -> State, m: seq<byte>, domain: byte, p: seq<byte>)
    requires |p| == 168 * (|m| / 168 + 1)
    requires forall i: nat :: i < |p| ==>
               p[i] == (if i < |m| then m[i] else if i == |m| then domain else 0) ^ (if i == |p| - 1 then 0x80 else 0)
    ensures Turbo(perm, m, domain) == Rounds(perm, p, |m| / 168 + 1)
  {
    PaddedIs(m, domain, p);
    BlocksFrom(perm, p, |m| / 168 + 1);
    assert Zero().state == Rounds(perm, p, 0);
    assert p[|p|..] == [];
  }

  // ----- length_encode, section 3.3 -----

  /** The number with these digits in base 256, the most significant first. */
  ghost function Number(digits: seq<nat>): nat {
    if digits == [] then 0 else Number(digits[..|digits| - 1]) * 256 + digits[|digits| - 1]
  }

  /** The digits of a number, without leading zeros. */
  ghost function Digits(x: nat): seq<nat> {
    if x == 0 then [] else Digits(x / 256) + [x % 256]
  }

  ghost predicate Writes(bytes: seq<byte>, digits: seq<nat>) {
    |bytes| == |digits| && forall i: nat :: i < |digits| ==> digits[i] < 256 && bytes[i] == digits[i] as byte
  }

  lemma {:induction false} DigitsNumber(x: nat)
    ensures Number(Digits(x)) == x && (x > 0 ==> Digits(x) != [] && Digits(x)[0] > 0)
  {
    if x > 0 {
      DigitsNumber(x / 256);
      assert Digits(x)[..|Digits(x)| - 1] == Digits(x / 256);
    }
  }

  lemma WritesNext(bytes: seq<byte>, digits: seq<nat>, d: nat)
    requires Writes(bytes, digits) && d < 256
    ensures Writes(bytes + [d as byte], digits + [d])
  {
  }

  lemma {:induction false} BigEndianWrites(x: nat)
    ensures Writes(BigEndian(x), Digits(x))
  {
    if x > 0 {
      BigEndianWrites(x / 256);
      WritesNext(BigEndian(x / 256), Digits(x / 256), x % 256);
    }
  }

  lemma LengthWrites(x: nat)
    requires |BigEndian(x)| < 256
    ensures Writes(LengthEncode(x), LengthDigits(x))
  {
    BigEndianWrites(x);
    var n := |BigEndian(x)|;
    assert n % 256 == n;
    WritesNext(BigEndian(x), Digits(x), n % 256);
  }

  /** The encoding in digits: those of the number, then how many they are. */
  ghost function LengthDigits(x: nat): seq<nat> {
    Digits(x) + [|Digits(x)|]
  }

  /** Read back: the last byte is the number of bytes before it, and these write the number without leading zeros. */
  lemma LengthDecodes(x: nat)
    requires |BigEndian(x)| < 256
    ensures var e, ds := LengthEncode(x), LengthDigits(x);
            && Writes(e, ds) && ds != [] && ds[|ds| - 1] == |e| - 1 && Number(ds[..|ds| - 1]) == x
            && (x > 0 ==> ds[0] > 0)
  {
    DigitsNumber(x);
    LengthWrites(x);
    assert LengthDigits(x)[..|Digits(x)|] == Digits(x);
  }

  /** So the encoding can be read off the end of what it follows. */
  lemma LengthReadOff(a: seq<nat>, x: nat, b: seq<nat>, y: nat)
    requires a + LengthDigits(x) == b + LengthDigits(y)
    ensures a == b && x == y
  {
    var d, e := LengthDigits(x), LengthDigits(y);
    assert (a + d)[|a + d| - 1] == d[|d| - 1] && (b + e)[|b + e| - 1] == e[|e| - 1];
    assert a == (a + d)[..|a|] && b == (b + e)[..|b|];
    assert Digits(x) == (a + d)[|a|..|a + d| - 1] && Digits(y) == (b + e)[|b|..|b + e| - 1];
    DigitsNumber(x);
    DigitsNumber(y);
  }

  /** The examples of the RFC: 00, 0C 01 and 01 00 02 03. */
  lemma LengthExamples()
    ensures LengthDigits(0) == [0x00] && LengthDigits(12) == [0x0C, 0x01]
    ensures LengthDigits(65538) == [0x01, 0x00, 0x02, 0x03]
  {
    assert Digits(12) == [12];
    assert Digits(1) == [1] && Digits(256) == [1, 0];
    assert Digits(65538) == [1, 0, 2];
  }

  // ----- KT128, section 3.2 -----

  /** A message of less than 8192 bytes is one node. */
  lemma Kt128Short(perm: State -> State, m: seq<byte>)
    requires |m| < 8192
    ensures Kt128State(perm, m) == Turbo(perm, m + [0], 0x07)
  {
  }

  lemma OneLeafMore(n: nat)
    requires n > 8192
    ensures (n - 8192 + 8191) / 8192 + 1 == (n + 8191) / 8192
  {
  }

  lemma {:induction false} ChainSize(perm: State -> State, rest: seq<byte>)
    ensures |ChainingValues(perm, rest)| == 32 * ((|rest| + 8191) / 8192)
    decreases |rest|
  {
    if |rest| > 8192 {
      ChainSize(perm, rest[8192..]);
      OneLeafMore(|rest|);
    }
  }

  /** `leaf` is what lies from 8192 * i on, at most 8192 bytes. */
  ghost predicate IsLeaf(rest: seq<byte>, i: nat, leaf: seq<byte>) {
    8192 * i < |rest| && leaf == rest[8192 * i..if |rest| < 8192 * i + 8192 then |rest| else 8192 * i + 8192]
  }

  ghost predicate HasAt(s: seq<byte>, a: nat, v: seq<byte>) {
    a + |v| <= |s| && s[a..a + |v|] == v
  }

  lemma LeafLater(rest: seq<byte>, i: nat, leaf: seq<byte>)
    requires IsLeaf(rest, i, leaf) && i > 0
    ensures |rest| > 8192 && IsLeaf(rest[8192..], i - 1, leaf)
  {
  }

  lemma HasLater(first: seq<byte>, more: seq<byte>, a: nat, v: seq<byte>)
    requires HasAt(more, a, v)
    ensures HasAt(first + more, |first| + a, v)
  {
  }

  lemma ChainHead(perm: State -> State, rest: seq<byte>, leaf: seq<byte>)
    requires IsLeaf(rest, 0, leaf)
    ensures HasAt(ChainingValues(perm, rest), 0, ChainingValue(perm, leaf))
  {
    assert leaf == if |rest| <= 8192 then rest else rest[..8192];
  }

  /** Chaining value `i` is that of leaf `i`. */
  lemma {:induction false} ChainAt(perm: State -> State, rest: seq<byte>, i: nat, leaf: seq<byte>)
    requires IsLeaf(rest, i, leaf)
    ensures HasAt(ChainingValues(perm, rest), 32 * i, ChainingValue(perm, leaf))
    decreases i
  {
    if i == 0 {
      ChainHead(perm, rest, leaf);
    } else {
      LeafLater(rest, i, leaf);
      ChainAt(perm, rest[8192..], i - 1, leaf);
      HasLater(ChainingValue(perm, rest[..8192]), ChainingValues(perm, rest[8192..]), 32 * (i - 1),
               ChainingValue(perm, leaf));
    }
  }

  /** The chaining values of the message with its zero byte. */
  lemma ChainOf(perm: State -> State, m: seq<byte>, i: nat)
    requires i < |m| / 8192
    ensures var cvs, end := ChainingValues(perm, (m + [0])[8192..]),
                            if |m| < 8192 * (i + 2) then |m| + 1 else 8192 * (i + 2);
            && 8192 * (i + 1) <= |m| && 32 * i + 32 <= |cvs|
            && cvs[32 * i..32 * i + 32] == Turbo(perm, (m + [0])[8192 * (i + 1)..end], 0x0B)[..32]
  {
    var s, end := m + [0], if |m| < 8192 * (i + 2) then |m| + 1 else 8192 * (i + 2);
    var leaf := s[8192 * (i + 1)..end];
    assert s[8192..][8192 * i..end - 8192] == leaf;
    ChainAt(perm, s[8192..], i, leaf);
  }

  /** A longer one, with its zero byte `s`: the first 8192 bytes, 03 and seven zeros, 32 bytes for every further
      8192 or less, their number as section 3.3 encodes it, and FF FF. */
  lemma Kt128Long(perm: State -> State, m: seq<byte>) returns (cvs: seq<byte>)
    requires |m| >= 8192
    ensures |cvs| == 32 * (|m| / 8192)
    ensures forall i: nat :: i < |m| / 8192 ==>
              32 * i + 32 <= |cvs| && 8192 * (i + 1) <= |m|
              && cvs[32 * i..32 * i + 32]
                 == Turbo(perm, (m + [0])[8192 * (i + 1)..if |m| < 8192 * (i + 2) then |m| + 1 else 8192 * (i + 2)],
                          0x0B)[..32]
    ensures Kt128State(perm, m)
         == Turbo(perm, m[..8192] + [3, 0, 0, 0, 0, 0, 0, 0] + cvs + LengthEncode(|m| / 8192) + [0xFF, 0xFF], 0x06)
  {
    var s := m + [0];
    cvs := ChainingValues(perm, s[8192..]);
    ChainSize(perm, s[8192..]);
    forall i: nat | i < |m| / 8192
      ensures 32 * i + 32 <= |cvs| && 8192 * (i + 1) <= |m|
      ensures cvs[32 * i..32 * i + 32]
           == Turbo(perm, s[8192 * (i + 1)..if |m| < 8192 * (i + 2) then |m| + 1 else 8192 * (i + 2)], 0x0B)[..32]
    {
      ChainOf(perm, m, i);
    }
    assert s[..8192] == m[..8192] && Marker() == [3, 0, 0, 0, 0, 0, 0, 0];
  }
}
