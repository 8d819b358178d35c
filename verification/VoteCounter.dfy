/** Counting the votes of a window of ticks from a ring of the latest votes, and the exchange of the
    counts as packets. */
module VoteCounter {
  import opened VotePacket

  // ----- What the ring holds -----

  /** A vote: computor `who` voted in tick `tick`. */
  datatype Vote = Vote(tick: nat, who: nat)

  /** The tick that computor `j` has in slot `s` after the votes of `history`, 0 if none. */
  ghost function LastIn(history: seq<Vote>, ring: nat, s: nat, j: nat): nat
    requires ring > 0
  {
    if history == [] then 0
    else var v := history[|history| - 1];
         if v.who == j && v.tick % ring == s then v.tick else LastIn(history[..|history| - 1], ring, s, j)
  }

  /** A vote of `j` in tick `i` was followed by one in another tick of the same slot. */
  ghost predicate Reused(history: seq<Vote>, ring: nat, i: nat, j: nat)
    requires ring > 0
  {
    exists a: nat, b: nat :: a < b < |history| && history[a] == Vote(i, j) && Overwrites(history[b], ring, i, j)
  }

  ghost predicate Overwrites(v: Vote, ring: nat, i: nat, j: nat)
    requires ring > 0
  {
    v.who == j && v.tick != i && v.tick % ring == i % ring
  }

  /** No vote of `j` in a tick of [lo, hi) was overwritten. */
  ghost predicate Intact(history: seq<Vote>, ring: nat, lo: nat, hi: nat, j: nat)
    requires ring > 0
  {
    forall i: nat :: lo <= i < hi ==> !Reused(history, ring, i, j)
  }

  /** `j` has voted in a tick of slot `s`. */
  ghost predicate Used(history: seq<Vote>, ring: nat, s: nat, j: nat)
    requires ring > 0
  {
    exists a: nat :: a < |history| && history[a].who == j && history[a].tick % ring == s
  }

  /** A used slot holds a vote that was made. */
  lemma {:induction false} LastFrom(history: seq<Vote>, ring: nat, s: nat, j: nat) returns (a: nat)
    requires ring > 0 && Used(history, ring, s, j)
    ensures a < |history| && history[a] == Vote(LastIn(history, ring, s, j), j)
  {
    var n := |history| - 1;
    if history[n].who == j && history[n].tick % ring == s {
      a := n;
    } else {
      var b: nat :| b < |history| && history[b].who == j && history[b].tick % ring == s;
      assert history[..n][b] == history[b];
      a := LastFrom(history[..n], ring, s, j);
    }
  }

  lemma {:induction false} UnusedSlot(history: seq<Vote>, ring: nat, s: nat, j: nat)
    requires ring > 0 && !Used(history, ring, s, j)
    ensures LastIn(history, ring, s, j) == 0
  {
    if history != [] {
      var n := |history| - 1;
      assert !(history[n].who == j && history[n].tick % ring == s);
      assert forall a: nat :: a < n ==> history[..n][a] == history[a];
      UnusedSlot(history[..n], ring, s, j);
    }
  }

  /** A vote that is not overwritten is still in its slot. */
  lemma {:induction false} LastKept(history: seq<Vote>, ring: nat, i: nat, j: nat, a: nat)
    requires ring > 0 && a < |history| && history[a] == Vote(i, j)
    requires forall b: nat :: a < b < |history| ==> !Overwrites(history[b], ring, i, j)
    ensures LastIn(history, ring, i % ring, j) == i
  {
    var n := |history| - 1;
    if a < n { LastKept(history[..n], ring, i, j, a); }
  }

  /** A slot that was not reused tells whether the computor voted, except that an unused slot 0 looks like a vote
      in tick 0. */
  lemma SlotTells(history: seq<Vote>, ring: nat, i: nat, j: nat)
    requires ring > 0 && !Reused(history, ring, i, j)
    ensures LastIn(history, ring, i % ring, j) == i
       <==> Vote(i, j) in history || (i == 0 && !Used(history, ring, 0, j))
  {
    if Vote(i, j) in history {
      var a: nat :| a < |history| && history[a] == Vote(i, j);
      LastKept(history, ring, i, j, a);
    } else if Used(history, ring, i % ring, j) {
      var a := LastFrom(history, ring, i % ring, j);
    } else {
      UnusedSlot(history, ring, i % ring, j);
      Zero(ring);
    }
  }

  lemma Zero(ring: nat)
    requires ring > 0
    ensures 0 % ring == 0
  {
  }

  /** The ticks in [lo, hi) that computor `j` voted in. */
  ghost function Voted(history: seq<Vote>, lo: nat, hi: nat, j: nat): nat
    requires lo <= hi
    decreases hi
  {
    if lo == hi then 0 else Voted(history, lo, hi - 1, j) + if Vote(hi - 1, j) in history then 1 else 0
  }

  /** The slots of [lo, hi) that hold their own tick. */
  ghost function Held(history: seq<Vote>, ring: nat, lo: nat, hi: nat, j: nat): (n: nat)
    requires ring > 0 && lo <= hi
    ensures n <= hi - lo
    decreases hi
  {
    if lo == hi then 0
    else Held(history, ring, lo, hi - 1, j) + if LastIn(history, ring, (hi - 1) % ring, j) == hi - 1 then 1 else 0
  }

  /** The count for a window counts one too many exactly if the window starts at tick 0 and slot 0 is unused. */
  ghost predicate Exact(history: seq<Vote>, ring: nat, lo: nat, hi: nat, j: nat)
    requires ring > 0
  {
    lo > 0 || hi == 0 || Used(history, ring, 0, j)
  }

  lemma {:induction false} HeldCount(history: seq<Vote>, ring: nat, lo: nat, hi: nat, j: nat)
    requires ring > 0 && lo <= hi && Intact(history, ring, lo, hi, j)
    ensures Held(history, ring, lo, hi, j)
         == Voted(history, lo, hi, j) + if Exact(history, ring, lo, hi, j) then 0 else 1
    decreases hi
  {
    if lo < hi {
      HeldCount(history, ring, lo, hi - 1, j);
      SlotTells(history, ring, hi - 1, j);
      if hi - 1 == 0 && Vote(0, j) in history {
        ZeroUsed(history, ring, j);
      }
    }
  }

  lemma ZeroUsed(history: seq<Vote>, ring: nat, j: nat)
    requires ring > 0 && Vote(0, j) in history
    ensures Used(history, ring, 0, j)
  {
    var a: nat :| a < |history| && history[a] == Vote(0, j);
    Zero(ring);
  }

  /** Counting slots counts votes exactly if the window starts after tick 0, or is empty, or slot 0 is used. */
  lemma CountsExact(history: seq<Vote>, ring: nat, lo: nat, hi: nat, j: nat)
    requires ring > 0 && lo <= hi && Intact(history, ring, lo, hi, j)
    ensures Held(history, ring, lo, hi, j) == Voted(history, lo, hi, j)
       <==> lo > 0 || lo == hi || Used(history, ring, 0, j)
  {
    HeldCount(history, ring, lo, hi, j);
  }

  /** In a window from tick 0, a slot 0 that `j` never used counts as one vote. */
  lemma TickZeroCounts(history: seq<Vote>, ring: nat, hi: nat, j: nat)
    requires ring > 0 && hi > 0 && Intact(history, ring, 1, hi, j) && !Used(history, ring, 0, j)
    ensures Held(history, ring, 0, hi, j) == Voted(history, 0, hi, j) + 1
  {
    forall a: nat | a < |history| ensures history[a] != Vote(0, j) {
      Zero(ring);
    }
    HeldCount(history, ring, 0, hi, j);
  }

  /** A concrete one: nobody has voted at all. */
  lemma TickZeroExample(j: nat)
    ensures Held([], 1352, 0, 1, j) == 1 && Voted([], 0, 1, j) == 0
  {
    TickZeroCounts([], 1352, 1, j);
    assert Voted([], 0, 0, j) == 0;
  }

  // ----- The counter object -----

  function Quorum(n: nat): nat {
    n * 2 / 3 + 1
  }

  /** The quorum is the least number that is more than two thirds of `n`. */
  lemma QuorumIsLeast(n: nat, q: nat)
    ensures 3 * q > 2 * n <==> q >= Quorum(n)
  {
  }

  ghost function Sum(counts: seq<nat>): nat {
    if counts == [] then 0 else Sum(counts[..|counts| - 1]) + counts[|counts| - 1]
  }

  lemma SumNext(counts: seq<nat>, i: nat)
    requires i < |counts|
    ensures Sum(counts[..i + 1]) == Sum(counts[..i]) + counts[i]
  {
    assert counts[..i + 1][..i] == counts[..i];
  }

  ghost predicate IsPacket(packet: seq<u8>, n: nat) {
    Fitting(n) && |packet| == PACKET_SIZE
  }

  ghost function Entry(packet: seq<u8>, n: nat, j: nat): int
    requires IsPacket(packet, n) && j < n
  {
    PlaceFits(j, n);
    Extract(packet, j)
  }

  ghost function Counts(packet: seq<u8>, n: nat): (cs: seq<nat>)
    requires IsPacket(packet, n)
    ensures |cs| == n && forall i: nat :: i < n ==> cs[i] == Entry(packet, n, i)
  {
    seq(n, (i: nat) requires i < n => Entry(packet, n, i))
  }

  /** The packets that are accepted from computor `j`. */
  ghost predicate Acceptable(packet: seq<u8>, n: nat, j: nat)
    requires IsPacket(packet, n) && j < n
  {
    var cs := Counts(packet, n);
    (forall i: nat :: i < n ==> cs[i] <= n) && Sum(cs) >= (n - 1) * Quorum(n) && cs[j] == 0
  }

  /** In numbers, with the quorum 2n / 3 + 1. */
  lemma AcceptableMeans(packet: seq<u8>, n: nat, j: nat)
    requires IsPacket(packet, n) && j < n
    ensures Acceptable(packet, n, j) <==> var cs := Counts(packet, n);
              (forall i: nat :: i < n ==> cs[i] <= n) && Sum(cs) >= (n - 1) * (n * 2 / 3 + 1) && cs[j] == 0
  {
  }

  /** The end of a window: a window that ends before it starts is empty. */
  function End(lo: nat, hi: nat): nat {
    if hi < lo then lo else hi
  }

  class Counter {
    const n: nat
    const votes: array2<nat>
    const accumulatedVoteCount: array<nat>
    const buffer: array<nat>
    ghost var history: seq<Vote>

    ghost predicate Shape() {
      && 1 <= n && Fitting(n) && votes.Length0 == 2 * n && votes.Length1 == n
      && accumulatedVoteCount.Length == buffer.Length == n && accumulatedVoteCount != buffer
    }

    /** Every slot holds the last vote made in it. */
    ghost predicate Valid()
      reads this, votes
    {
      Shape() && forall s: nat, j: nat :: s < 2 * n && j < n ==> votes[s, j] == LastIn(history, 2 * n, s, j)
    }

    constructor (n: nat)
      requires 1 <= n <= 1024 && n * 10 <= 848 * 8
      ensures Valid() && this.n == n && history == [] && fresh(votes) && fresh(accumulatedVoteCount) && fresh(buffer)
      ensures forall i: nat :: i < n ==> accumulatedVoteCount[i] == 0
    {
      this.n := n;
      votes := new nat[2 * n, n]((_, _) => 0);
      accumulatedVoteCount := new nat[n](_ => 0);
      buffer := new nat[n](_ => 0);
      history := [];
    }

    method RegisterNewVote(tick: nat, computorIdx: nat)
      requires Valid() && computorIdx < n
      modifies `history, votes
      ensures Valid() && history == old(history) + [Vote(tick, computorIdx)]
    {
      votes[tick % (2 * n), computorIdx] := tick;
      history := history + [Vote(tick, computorIdx)];
      assert history[..|history| - 1] == old(history);
    }

    /** Counts, for every computor, the slots of the window that hold their own tick. */
    method CountWindow(fromTick: nat, toTick: nat)
      requires Valid()
      modifies buffer
      ensures forall j: nat :: j < n ==> buffer[j] == Held(history, 2 * n, fromTick, End(fromTick, toTick), j)
    {
      for j := 0 to n
        invariant forall k: nat :: k < j ==> buffer[k] == 0
      {
        buffer[j] := 0;
      }
      for i := fromTick to End(fromTick, toTick)
        invariant forall j: nat :: j < n ==> buffer[j] == Held(history, 2 * n, fromTick, i, j)
      {
        var slotId := i % (2 * n);
        for j := 0 to n
          invariant forall k: nat :: k < n ==>
                      buffer[k] == Held(history, 2 * n, fromTick, if k < j then i + 1 else i, k)
        {
          if votes[slotId, j] == i {
            buffer[j] := buffer[j] + 1;
          }
        }
      }
    }

    method Update10Bit(data: array<u8>, idx: nat, value: nat)
      requires Shape() && data.Length == PACKET_SIZE && idx < n
      modifies data
      ensures Place(idx) + 1 < Tail(n) <= PACKET_SIZE && data[..] == Updated(old(data[..]), idx, value)
    {
      PlaceFits(idx, n);
      var p := Split(data[Place(idx)], data[Place(idx) + 1], idx % 4, value);
      data[Place(idx)], data[Place(idx) + 1] := p.0, p.1;
    }

    /** Packs the buffer, exactly if its counts have 10 bits. Bytes behind the entries keep what they held. */
    method Pack(packet: array<u8>)
      requires Shape() && packet.Length == PACKET_SIZE && packet as object != buffer
      modifies packet
      ensures Packed(packet[..], n, buffer[..], n) <==> forall j: nat :: j < n ==> buffer[j] < 1024
      ensures packet[Tail(n)..] == old(packet[Tail(n)..])
    {
      PlaceFits(n - 1, n);
      for i := 0 to n
        invariant (forall j: nat :: j < i ==> buffer[j] < 1024) ==> Packed(packet[..], n, buffer[..], i)
        invariant packet[Tail(n)..] == old(packet[Tail(n)..])
      {
        ghost var data := packet[..];
        Update10Bit(packet, i, buffer[i]);
        PackStep(data, packet[..], n, i, buffer[..]);
      }
      EntriesSmall(packet[..], n);
    }

    /** What the packet of computor `r` should report about `j`. */
    ghost function Report(fromTick: nat, toTick: nat, r: nat, j: nat): nat
      requires n > 0
      reads this
    {
      if j == r then 0 else Held(history, 2 * n, fromTick, End(fromTick, toTick), j)
    }

    ghost function Reports(fromTick: nat, toTick: nat, r: nat): (counts: seq<nat>)
      requires n > 0
      reads this
      ensures |counts| == n && forall j: nat :: j < n ==> counts[j] == Report(fromTick, toTick, r, j)
    {
      seq(n, (j: nat) requires j < n reads this => Report(fromTick, toTick, r, j))
    }

    /** `compressNewVotesPacket`: entry j is the number of ticks of the window whose slot holds a vote of j, and 0
        for the reporter, exactly if all these numbers have 10 bits. Where no vote of the window was overwritten that
        is the number of ticks j voted in, except for one too many in a window from tick 0 with an unused slot 0.
        The first eight bytes are cleared beforehand; other bytes behind the entries keep what they held. */
    method CompressNewVotesPacket(fromTick: nat, toTick: nat, computorIdx: nat, packet: array<u8>)
      requires Valid() && computorIdx < n && packet.Length == PACKET_SIZE
      requires packet as object != buffer && packet as object != accumulatedVoteCount
      modifies buffer, packet
      ensures Packed(packet[..], n, Reports(fromTick, toTick, computorIdx), n)
         <==> forall j: nat :: j < n ==> Report(fromTick, toTick, computorIdx, j) < 1024
      ensures forall j: nat :: j < n && j != computorIdx && fromTick <= toTick ==>
                Intact(history, 2 * n, fromTick, toTick, j) ==>
                Report(fromTick, toTick, computorIdx, j)
                == Voted(history, fromTick, toTick, j)
                   + if fromTick > 0 || toTick == 0 || Used(history, 2 * n, 0, j) then 0 else 1
      ensures forall j: nat :: j < n && (j == computorIdx || toTick <= fromTick) ==>
                Report(fromTick, toTick, computorIdx, j) == 0
      ensures forall i: nat :: i < 848 && 10 * n <= 8 * i ==> packet[i] == if i < 8 then 0 else old(packet[i])
    {
      for i := 0 to 8
        invariant forall k: nat :: k < PACKET_SIZE ==> packet[k] == if k < i then 0 else old(packet[k])
      {
        packet[i] := 0;
      }
      CountWindow(fromTick, toTick);
      buffer[computorIdx] := 0;
      assert buffer[..] == Reports(fromTick, toTick, computorIdx);
      ghost var tail := packet[Tail(n)..];
      Pack(packet);
      ReportVoted(fromTick, toTick, computorIdx);
      TailIsRoundedUp(n);
      forall i: nat | Tail(n) <= i < PACKET_SIZE ensures packet[i] == if i < 8 then 0 else old(packet[i]) {
        assert packet[i] == packet[Tail(n)..][i - Tail(n)] == tail[i - Tail(n)];
      }
    }

    /** A window below 1024 ticks is always reported. */
    lemma ShortWindow(fromTick: nat, toTick: nat, r: nat)
      requires n > 0 && toTick < fromTick + 1024
      ensures forall j: nat :: j < n ==> Report(fromTick, toTick, r, j) < 1024
    {
    }

    lemma ReportVoted(fromTick: nat, toTick: nat, r: nat)
      requires n > 0
      ensures forall j: nat :: j < n && j != r && fromTick <= toTick ==>
                Intact(history, 2 * n, fromTick, toTick, j) ==>
                Report(fromTick, toTick, r, j)
                == Voted(history, fromTick, toTick, j)
                   + if fromTick > 0 || toTick == 0 || Used(history, 2 * n, 0, j) then 0 else 1
    {
      forall j: nat | j < n && j != r && fromTick <= toTick && Intact(history, 2 * n, fromTick, toTick, j)
        ensures Report(fromTick, toTick, r, j)
             == Voted(history, fromTick, toTick, j)
                + if fromTick > 0 || toTick == 0 || Used(history, 2 * n, 0, j) then 0 else 1
      {
        HeldCount(history, 2 * n, fromTick, toTick, j);
      }
    }

    method ValidateNewVotesPacket(packet: seq<u8>, computorIdx: nat) returns (ok: bool)
      requires Shape() && |packet| == PACKET_SIZE && computorIdx < n
      modifies buffer
      ensures ok == Acceptable(packet, n, computorIdx)
    {
      ghost var cs := Counts(packet, n);
      var sum := 0;
      for i := 0 to n
        invariant sum == Sum(cs[..i]) && forall j: nat :: j < i ==> buffer[j] == cs[j] <= n
      {
        PlaceFits(i, n);
        SumNext(cs, i);
        assert cs[i] == Entry(packet, n, i);
        buffer[i] := Extract(packet, i);
        if buffer[i] > n {
          return false;
        }
        sum := sum + buffer[i];
      }
      assert cs[..n] == cs;
      if sum < (n - 1) * Quorum(n) {
        return false;
      }
      return buffer[computorIdx] == 0;
    }

    /** Adds the counts of an acceptable packet, and nothing of any other. */
    method AddVotes(packet: seq<u8>, computorIdx: nat)
      requires Shape() && |packet| == PACKET_SIZE && computorIdx < n
      modifies accumulatedVoteCount, buffer
      ensures forall i: nat :: i < n ==>
                accumulatedVoteCount[i] == old(accumulatedVoteCount[i])
                                           + if Acceptable(packet, n, computorIdx) then Counts(packet, n)[i] else 0
    {
      var ok := ValidateNewVotesPacket(packet, computorIdx);
      if ok {
        for i := 0 to n
          invariant forall j: nat :: j < n ==>
                      accumulatedVoteCount[j]
                      == old(accumulatedVoteCount[j]) + if j < i then Counts(packet, n)[j] else 0
        {
          PlaceFits(i, n);
          assert Counts(packet, n)[i] == Entry(packet, n, i);
          accumulatedVoteCount[i] := accumulatedVoteCount[i] + Extract(packet, i);
        }
      }
    }
  }

  lemma PackStep(data: seq<u8>, data': seq<u8>, n: nat, i: nat, counts: seq<nat>)
    requires IsPacket(data, n) && i < n == |counts| && Place(i) + 1 < Tail(n) <= PACKET_SIZE
    requires data' == Updated(data, i, counts[i])
    ensures counts[i] < 1024 && Packed(data, n, counts, i) ==> Packed(data', n, counts, i + 1)
    ensures data'[Tail(n)..] == data[Tail(n)..]
  {
    if counts[i] < 1024 && Packed(data, n, counts, i) {
      forall j: nat | j < i + 1 ensures Entry(data', n, j) == counts[j] {
        PlaceFits(j, n);
        if j == i {
          ExtractUpdated(data, i, counts[i]);
        } else {
          assert Entry(data, n, j) == counts[j];
          OthersKept(data, i, counts[i], j);
        }
      }
    }
  }

  /** The first `m` entries are the counts. */
  ghost predicate Packed(packet: seq<u8>, n: nat, counts: seq<nat>, m: nat) {
    IsPacket(packet, n) && m <= n == |counts| && forall j: nat :: j < m ==> Entry(packet, n, j) == counts[j]
  }

  lemma EntriesSmall(packet: seq<u8>, n: nat)
    requires IsPacket(packet, n)
    ensures forall j: nat :: j < n ==> 0 <= Entry(packet, n, j) < 1024
  {
    forall j: nat | j < n ensures 0 <= Entry(packet, n, j) < 1024 {
      PlaceFits(j, n);
    }
  }

  /** What a receiver reads from a packet of computor `r` for another computor is the number of ticks it voted in,
      exactly if the window starts after tick 0, or is empty, or slot 0 was used. */
  lemma PacketReports(history: seq<Vote>, n: nat, lo: nat, hi: nat, r: nat, packet: seq<u8>, j: nat)
    requires IsPacket(packet, n) && lo <= hi && j < n && r < n && Intact(history, 2 * n, lo, hi, j)
    requires Entry(packet, n, j) == if j == r then 0 else Held(history, 2 * n, lo, hi, j)
    ensures j == r ==> Counts(packet, n)[j] == 0
    ensures j != r ==> (Counts(packet, n)[j] == Voted(history, lo, hi, j)
                        <==> lo > 0 || lo == hi || Used(history, 2 * n, 0, j))
  {
    CountsExact(history, 2 * n, lo, hi, j);
    assert Counts(packet, n)[j] == Entry(packet, n, j);
  }
}
