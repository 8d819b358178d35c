/** The vote packet: 10-bit entries packed most significant bit first, four entries in five bytes. */
module VotePacket {

  type u8 = x: int | 0 <= x < 256

  const PACKET_SIZE: nat := 848

  /** The numbers of computors the source allows: their indices have 10 bits and their entries fit the packet. */
  predicate Fitting(n: nat) {
    n <= 1024 && n * 10 <= PACKET_SIZE * 8
  }

  // ----- One entry over its two bytes -----

  /** 2 to the number of bits an entry at place `k` of four has in its first byte. */
  function FirstPart(k: nat): (n: nat)
    requires k < 4
    ensures n > 0
  {
    if k == 0 then 256 else if k == 1 then 64 else if k == 2 then 16 else 4
  }

  /** 2 to the number of bits it has in its second byte. */
  function SecondPart(k: nat): (n: nat)
    requires k < 4
    ensures n > 0
  {
    if k == 0 then 4 else if k == 1 then 16 else if k == 2 then 64 else 256
  }

  /** 2 to the number of bits of the second byte that belong to the next entry. */
  function Rest(k: nat): (n: nat)
    requires k < 4
    ensures n > 0
  {
    if k == 0 then 64 else if k == 1 then 16 else if k == 2 then 4 else 1
  }

  function Join(byte0: u8, byte1: u8, k: nat): int
    requires k < 4
  {
    byte0 % FirstPart(k) * SecondPart(k) + byte1 / Rest(k)
  }

  lemma Split0(b0: u8, b1: u8, v: nat)
    requires v < 1024
    ensures var x, y := b0 / 256 * 256 + v / 4, b1 % 64 + v % 4 * 64;
            0 <= x < 256 && 0 <= y < 256 && x % 256 * 4 + y / 64 == v && x / 256 == b0 / 256 && y % 64 == b1 % 64
  {
  }

  lemma Split1(b0: u8, b1: u8, v: nat)
    requires v < 1024
    ensures var x, y := b0 / 64 * 64 + v / 16, b1 % 16 + v % 16 * 16;
            0 <= x < 256 && 0 <= y < 256 && x % 64 * 16 + y / 16 == v && x / 64 == b0 / 64 && y % 16 == b1 % 16
  {
  }

  lemma Split2(b0: u8, b1: u8, v: nat)
    requires v < 1024
    ensures var x, y := b0 / 16 * 16 + v / 64, b1 % 4 + v % 64 * 4;
            0 <= x < 256 && 0 <= y < 256 && x % 16 * 64 + y / 4 == v && x / 16 == b0 / 16 && y % 4 == b1 % 4
  {
  }

  lemma Split3(b0: u8, b1: u8, v: nat)
    requires v < 1024
    ensures var x, y := b0 / 4 * 4 + v / 256, b1 % 1 + v % 256 * 1;
            0 <= x < 256 && 0 <= y < 256 && x % 4 * 256 + y / 1 == v && x / 4 == b0 / 4 && y % 1 == b1 % 1
  {
  }

  /** Bitwise or of two bytes. */
  function Or(a: nat, b: nat): nat
    decreases a + b
  {
    if a == 0 then b
    else if b == 0 then a
    else (if a % 2 == 1 || b % 2 == 1 then 1 else 0) + 2 * Or(a / 2, b / 2)
  }

  lemma {:induction false} OrBounded(a: nat, b: nat, n: nat)
    requires Power(n) && a < n && b < n
    ensures Or(a, b) < n
    decreases n
  {
    if a != 0 && b != 0 { OrBounded(a / 2, b / 2, n / 2); }
  }

  predicate Power(n: nat) {
    n == 1 || n == 2 || n == 4 || n == 8 || n == 16 || n == 32 || n == 64 || n == 128 || n == 256
  }

  /** Bits that do not overlap are added. */
  lemma {:induction false} OrDisjoint(h: nat, x: nat, n: nat)
    requires Power(n) && x < n
    ensures Or(h * n, x) == h * n + x
    decreases n
  {
    if x != 0 && h != 0 {
      var m := n / 2;
      Doubled(h, m, n);
      OrDisjoint(h, x / 2, m);
    } else if h == 0 {
      assert h * n == 0;
    }
  }

  lemma Doubled(h: nat, m: nat, n: nat)
    requires n == 2 * m && m > 0 && h > 0
    ensures h * n == 2 * (h * m) && h * n / 2 == h * m && h * n % 2 == 0 && h * n > 0
  {
    assert h * n == 2 * (h * m);
    assert h * m > 0;
  }

  /** The two bytes with the entry replaced, as the masks and shifts leave them for a value of any size. */
  function Split(byte0: u8, byte1: u8, k: nat, value: nat): (u8, u8)
    requires k < 4
  {
    SplitRange(byte0, byte1, k, value);
    (Or(byte0 / FirstPart(k) * FirstPart(k), value / SecondPart(k) % 256),
     byte1 % Rest(k) + value % SecondPart(k) * Rest(k))
  }

  /** A value of 10 bits is read back, and all other bits stay. */
  lemma SplitJoin(byte0: u8, byte1: u8, k: nat, value: nat)
    requires k < 4 && value < 1024
    ensures var r := Split(byte0, byte1, k, value);
            && Join(r.0, r.1, k) == value
            && r.0 / FirstPart(k) == byte0 / FirstPart(k) && r.1 % Rest(k) == byte1 % Rest(k)
  {
    UpperPart(k, value);
    OrDisjoint(byte0 / FirstPart(k), value / SecondPart(k), FirstPart(k));
    SplitExact(byte0, byte1, k, value);
  }

  lemma SplitRange(byte0: u8, byte1: u8, k: nat, value: nat)
    requires k < 4
    ensures Or(byte0 / FirstPart(k) * FirstPart(k), value / SecondPart(k) % 256) < 256
    ensures byte1 % Rest(k) + value % SecondPart(k) * Rest(k) < 256
  {
    SecondRange(byte1, k, value);
    OrBounded(byte0 / FirstPart(k) * FirstPart(k), value / SecondPart(k) % 256, 256);
  }

  lemma SecondRange(byte1: u8, k: nat, value: nat)
    requires k < 4
    ensures byte1 % Rest(k) + value % SecondPart(k) * Rest(k) < 256
  {
  }

  lemma SplitExact(byte0: u8, byte1: u8, k: nat, value: nat)
    requires k < 4 && value < 1024
    ensures var x, y := byte0 / FirstPart(k) * FirstPart(k) + value / SecondPart(k),
                        byte1 % Rest(k) + value % SecondPart(k) * Rest(k);
            && 0 <= x < 256 && 0 <= y < 256 && Join(x, y, k) == value
            && x / FirstPart(k) == byte0 / FirstPart(k) && y % Rest(k) == byte1 % Rest(k)
  {
    if k == 0 {
      assert FirstPart(k) == 256 && SecondPart(k) == 4 && Rest(k) == 64;
      Split0(byte0, byte1, value);
    } else if k == 1 {
      assert FirstPart(k) == 64 && SecondPart(k) == 16 && Rest(k) == 16;
      Split1(byte0, byte1, value);
    } else if k == 2 {
      assert FirstPart(k) == 16 && SecondPart(k) == 64 && Rest(k) == 4;
      Split2(byte0, byte1, value);
    } else {
      assert FirstPart(k) == 4 && SecondPart(k) == 256 && Rest(k) == 1;
      Split3(byte0, byte1, value);
    }
  }

  /** A value of 10 bits sends no more bits to the first byte than belong there. */
  lemma UpperPart(k: nat, value: nat)
    requires k < 4 && value < 1024
    ensures value / SecondPart(k) % 256 == value / SecondPart(k) < FirstPart(k) && Power(FirstPart(k))
  {
  }

  // ----- Entries of a packet -----

  function Place(idx: nat): nat {
    idx + idx / 4
  }

  function Extract(data: seq<u8>, idx: nat): int
    requires Place(idx) + 1 < |data|
  {
    Join(data[Place(idx)], data[Place(idx) + 1], idx % 4)
  }

  function Updated(data: seq<u8>, idx: nat, value: nat): (r: seq<u8>)
    requires Place(idx) + 1 < |data|
    ensures |r| == |data|
  {
    var p := Split(data[Place(idx)], data[Place(idx) + 1], idx % 4, value);
    data[Place(idx) := p.0][Place(idx) + 1 := p.1]
  }

  lemma ExtractUpdated(data: seq<u8>, idx: nat, value: nat)
    requires Place(idx) + 1 < |data| && value < 1024
    ensures Extract(Updated(data, idx, value), idx) == value
  {
    SplitJoin(data[Place(idx)], data[Place(idx) + 1], idx % 4, value);
  }

  /** Neighbours share a byte but no bits. */
  lemma Neighbours(k: nat)
    requires k < 3
    ensures FirstPart(k + 1) == Rest(k)
  {
  }

  /** A write leaves every other entry unchanged. */
  lemma OthersKept(data: seq<u8>, idx: nat, value: nat, j: nat)
    requires Place(idx) + 1 < |data| && Place(j) + 1 < |data| && value < 1024 && j != idx
    ensures Extract(Updated(data, idx, value), j) == Extract(data, j)
  {
    SplitJoin(data[Place(idx)], data[Place(idx) + 1], idx % 4, value);
    if j == idx + 1 && idx % 4 < 3 {
      Neighbours(idx % 4);
    } else if j + 1 == idx && j % 4 < 3 {
      Neighbours(j % 4);
    }
  }

  /** The layout: five bytes, most significant first, are the number that four entries of 10 bits are. */
  lemma FourEntries(data: seq<u8>, g: nat, b: seq<int>, e: seq<int>)
    requires 5 * g + 5 <= |data| && |b| == 5 && |e| == 4
    requires forall k: nat :: k < 5 ==> b[k] == data[5 * g + k]
    requires forall k: nat :: k < 4 ==> e[k] == Extract(data, 4 * g + k)
    ensures (((b[0] * 256 + b[1]) * 256 + b[2]) * 256 + b[3]) * 256 + b[4]
         == ((e[0] * 1024 + e[1]) * 1024 + e[2]) * 1024 + e[3]
  {
    forall k: nat | k < 4 ensures e[k] == Join(b[k], b[k + 1], k) {
      EntryOfFour(data, g, k);
      assert b[k + 1] == data[5 * g + (k + 1)];
    }
    Entries(b[0], b[1], b[2], b[3], b[4]);
  }

  lemma EntryOfFour(data: seq<u8>, g: nat, k: nat)
    requires 5 * g + 5 <= |data| && k < 4
    ensures Place(4 * g + k) == 5 * g + k && Extract(data, 4 * g + k) == Join(data[5 * g + k], data[5 * g + k + 1], k)
  {
    assert (4 * g + k) / 4 == g && (4 * g + k) % 4 == k;
  }

  lemma Entries(b0: int, b1: int, b2: int, b3: int, b4: int)
    requires 0 <= b0 < 256 && 0 <= b1 < 256 && 0 <= b2 < 256 && 0 <= b3 < 256 && 0 <= b4 < 256
    ensures (((b0 * 256 + b1) * 256 + b2) * 256 + b3) * 256 + b4
         == ((Join(b0, b1, 0) * 1024 + Join(b1, b2, 1)) * 1024 + Join(b2, b3, 2)) * 1024 + Join(b3, b4, 3)
  {
  }

  /** The first byte behind the entries of `n` computors. */
  function Tail(n: nat): nat {
    if n == 0 then 0 else Place(n - 1) + 2
  }

  lemma TailIsRoundedUp(n: nat)
    ensures Tail(n) == (10 * n + 7) / 8
  {
  }

  lemma PlaceFits(idx: nat, n: nat)
    requires Fitting(n) && idx < n
    ensures Place(idx) + 1 < Tail(n) <= PACKET_SIZE
  {
  }
}
