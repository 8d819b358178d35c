# Verified model of the Qubic core state machines

This project models the consensus-critical structures of the Qubic lite node in Dafny and proves
what they promise. Each of them is a fast form of something simple, and the simple form is the
specification.

- **Asset universe** (`AssetTable`, `AssetMoves`, `AssetRebuild`, `AssetIndexLists`, `MerkleTree`,
  `AssetUniverse`). An open-addressed table of issuances, ownerships and possessions with linked
  index lists, change flags, an incremental Merkle tree and an end-of-epoch rebuild. The table
  refines a map from holdings to share counts (`Ledger`). One invariant, `Universe.Valid`, covers
  probe reachability, uniqueness, links, share sums, list agreement and digest freshness, and every
  operation keeps it.
- **FourQ** (`Limbs`, `Powers`, `FourQField`, `FourQExp`, `FourQOrder`, `FourQRecoding`,
  `GroupSums`, `FourQDecompose`, `FourQLoops`, `FourQComb`). 64-bit limb arithmetic modulo 2^127 - 1, the
  exact 512-bit product, Montgomery reduction modulo the curve order, the decomposition of scalars into
  four words, the three scalar recodings, and the loops of the three scalar multiplications over any
  abelian group. All three give the multiple by the given 256-bit scalar.
- **KangarooTwelve** (`Sponge`, `KangarooTree`, `KangarooReference`, `KangarooTwelve`,
  `KangarooOneShot`). The sponge, the leaf function and the stream equal KT128 of RFC 9861 with empty
  customization string; so does the one-call form exactly up to 168 bytes of output. The 1600-bit
  permutation is a parameter.
- **Revenue** (`TopK`, `Remainders`, `RevenueFactors`, `RevenueWindow`, `RevenueScores`,
  `RevenueStream`, `RevenuePayout`). Ring, frozen head and edge pass equal the circular window of every
  tick; quorum score, factors and payouts; and no number of these computations leaves 64 bits.
- **Contract IPO** (`OrderBook`, `IpoAuction`, `IpoFinish`). The order book, the money of the bidders,
  and the distribution of shares through the asset universe.
- **Score task queue and cache** (`TaskQueue`, `ScoreCache`). The queue is a state machine over atomic
  steps of any number of threads.
- **Vote counter** (`VotePacket`, `VoteCounter`). The ring of votes and the 10-bit packets.

The model is parametric in the table capacity (a power of two of at least 64), the number of
computors and contracts of the revenue, IPO and vote code, the number of threads, and the cache size.
Hashes, the permutation, the group operations, the square root and the scoring engine are function
parameters. Integer widths are written out where they matter: limbs are below 2^64, shares and
amounts at most 2^63 - 1, stored observations 16 bits, vote entries 10 bits.

Where the code differs from its comments or from what one would expect, the model follows the code:

- The comment of `fpexp1251` gives the exponent as 125-1; the code raises to 2^125 - 1
  (`src/four_q.h:577-610`).
- `compressNewVotesPacket` means to clear the packet, but `sizeof` of the array parameter is the size
  of a pointer, so only the first eight bytes are cleared. All entries are written afterwards; the bytes
  behind them, three for 676 computors, keep what they held (`src/vote_counter.h:67`).
  `CompressNewVotesPacket` states this.
- An untouched slot of the vote ring reads as a vote in tick 0 (`src/vote_counter.h:74`). Where no vote of
  the window was overwritten, counts are exact if and only if the window starts after tick 0, or is empty,
  or the computor has used slot 0 (`CountsExact`). `TickZeroExample` is a window where they are not.
- The one-call hash copies any number of output bytes out of one state, and out of the memory behind it
  for more than 200 (`src/kangaroo_twelve.h:892`, called with a message length in `src/qubic.cpp:1484`).
  The copy is KT128 for every permutation if and only if at most 168 bytes are asked for
  (`CopiedExactly`). `CopiedFails` gives a permutation, with its inverse, for which it never is beyond that.
- The factor of a score below the quorum score is computed from a product that wraps at 2^64, guarded by
  an assertion only (`src/revenue.h:349-351`). The factor is the promised one if and only if that
  assertion holds or the score reaches the quorum score (`FactorExact`). `FactorWraps` is a score for
  which it is not. The scores of an epoch always meet the assertion.
- `issueAsset` does not check the number of shares. The invariant survives if and only if it lies between
  0 and 2^63 - 1 (`IssueGood`). `NegativeIssue` breaks it in a new universe.
- The drain of the score queue means to return once every task has finished, but a task that is added
  after the drainer has been told that all is done may stay behind (`src/score.h:425-451`).
  `LateTaskStays` is such a run. A task added during a drain is sure to be run if and only if the drainer
  has not been told yet (`AddedTaskSure`, `SureToRun`).
- `resetTaskQueue` may be called while a task runs. The queue keeps its invariant if and only if no task
  does (`StepKeeps`). `ResetWhileRunning` is a run after which one task of none has finished.
- A count of 1024 or more does not fit an entry of the vote packet and spills over into its neighbour. The
  packet reports all counts if and only if they are below 1024, as in every window below 1024 ticks
  (`CompressNewVotesPacket`).

## Model

| member | source | states |
|---|---|---|
| AssetTable.ProbeMiss | src/assets/assets.h:142-162 | in a table without gaps before its records, a probe that stops at a free slot proves that no record matches |
| AssetTable.MatchUnique | src/assets/assets.h:142-162 | at most one record matches: issuances by low 192 issuer bits and name, ownerships and possessions by parent, key and manager |
| AssetTable.HoldingInjective | src/assets/assets.h:44-60 | two possessions never stand for the same holding, so the table refines a map |
| AssetTable.LedgerAt | src/assets/assets.h:44-60 | every possession is in the ledger with its shares |
| AssetTable.LedgerFrom | src/assets/assets.h:44-60 | every ledger entry comes from a possession |
| AssetTable.SharesFit | src/assets/assets.h:199-293 | in a good table every share count lies between 0 and 2^63 - 1, so additions do not overflow |
| AssetTable.RecordBeforeFree | src/assets/assets.h:142-162 | counted circularly from the low 32 bits of its key, modulo the capacity, every record comes before every free slot |
| AssetMoves.TransferGood | src/assets/assets.h:559-591 | a transfer keeps the whole table invariant, also when source and destination are the same record |
| AssetMoves.TransferTotals | src/assets/assets.h:559-591 | a transfer changes the total of no issuance |
| AssetMoves.TransferLedger | src/assets/assets.h:559-591 | a transfer moves exactly n shares from one holding to another and touches no other |
| AssetMoves.BurnGood | src/assets/assets.h:494-546 | burning keeps the whole table invariant |
| AssetMoves.BurnLedger | src/assets/assets.h:494-546 | burning takes exactly n shares from one holding |
| AssetMoves.IssueGood | src/assets/assets.h:199-293 | issuing keeps the whole table invariant exactly for share numbers from 0 to 2^63 - 1; other totals stay |
| AssetMoves.IssueLedger | src/assets/assets.h:199-293 | issuing adds exactly one holding with all shares |
| AssetMoves.ProbesAllowIssue | src/assets/assets.h:212-239 | the slots found by the three probes of an issue are reachable, unused and clash with nothing |
| AssetMoves.FirstIssueSlots | src/assets/assets.h:212-239 | the first issue takes the slot given by the low 32 bits of the key, modulo the capacity, and the two that follow |
| AssetRebuild.PlaceStep | src/assets/assets.h:893-970 | placing one possession with its ownership and issuance in the new table keeps the copy relation and all partial sums |
| AssetRebuild.RebuiltGood | src/assets/assets.h:884-979 | the rebuilt table meets the full invariant again |
| AssetRebuild.RebuiltLedger | src/assets/assets.h:884-979 | every holding with shares has the same count after the rebuild, and the others are gone |
| AssetRebuild.RebuiltCompacts | src/assets/assets.h:884-979 | a record survives exactly when shares stand below it |
| AssetRebuild.SurvivorFields | src/assets/assets.h:893-970 | a surviving ownership or possession has the same key, manager and shares, under the survivor of the record it belonged to |
| AssetIndexLists.IndexLists.AddIssuance | src/assets/assets.h:68-77 | the new issuance becomes the head of the list and the old head its successor |
| AssetIndexLists.IndexLists.AddChild | src/assets/assets.h:79-101 | the new child becomes the head of its parent's list |
| AssetIndexLists.IndexLists.Reset | src/assets/assets.h:103-110 | all lists are empty |
| AssetIndexLists.IndexLists.Rebuild | src/assets/assets.h:112-133 | rebuilt lists agree with the table: acyclic, without duplicates, with exactly the issuances and each record's children |
| AssetIndexLists.AddIssuanceAgrees | src/assets/assets.h:68-77 | adding an issuance to table and list keeps their agreement |
| AssetIndexLists.AddChildAgrees | src/assets/assets.h:79-101 | adding a child to table and list keeps their agreement |
| AssetIndexLists.ChainUnique | src/assets/assets.h:61-67 | a list has only one reading, so it cannot be cyclic |
| MerkleTree.FlaggedChangesKeepFresh | src/assets/assets.h:241-243 | changing records whose flags are set keeps every unflagged digest current |
| MerkleTree.HashLeaves | src/assets/assets.h:747-761 | exactly the flagged leaves are hashed again |
| MerkleTree.ClimbOneLevel | src/assets/assets.h:766-809 | one level of the climb with its 64-leaf chunks, skipped words and in-place halving of the flags equals the pairwise step over the level |
| MerkleTree.ClimbWholeLevel | src/assets/assets.h:766-809 | after a level all its nodes are current and the flags are those of the level above |
| MerkleTree.UpdateTree | src/assets/assets.h:724-813 | every node of the tree is current, every flag clear, and the result is the root of a tree built from scratch |
| AssetUniverse.Probe | src/assets/assets.h:148-161 | a probe loop returns the first slot that stops it, and ends while such a slot exists |
| AssetUniverse.TransferKeeps | src/assets/assets.h:372-410 | records, lists, flags and digests stay in agreement over a transfer |
| AssetUniverse.BurnKeeps | src/assets/assets.h:494-516 | records, lists, flags and digests stay in agreement over a burn |
| AssetUniverse.IssueKeeps | src/assets/assets.h:212-247 | records, lists, flags and digests stay in agreement over an issue, exactly for share numbers from 0 to 2^63 - 1 |
| AssetUniverse.NegativeIssue | src/assets/assets.h:199-293 | an issue of minus one share of any asset breaks the invariant of a new universe |
| AssetUniverse.IssuableFields | src/assets/assets.h:266-271 | an asset cannot be issued exactly if some issuance has that name and an issuer with the same three low words |
| AssetUniverse.Universe.constructor | src/assets/assets.h:168-178 | the empty universe meets the invariant |
| AssetUniverse.Universe.IssuanceIndex | src/assets/assets.h:142-162 | returns the one slot with an issuance of that name and that issuer, or none exactly if there is no such slot |
| AssetUniverse.Universe.NumberOfPossessedShares | src/assets/assets.h:642-721 | returns the ledger entry of the holding, 0 if it has none |
| AssetUniverse.Universe.MoveShares | src/assets/assets.h:372-410 | the common part of both transfers keeps the invariant and moves n shares |
| AssetUniverse.Universe.TransferShareManagementRights | src/assets/assets.h:328-462 | succeeds exactly for a positive amount that neither the source's owned nor its possessed shares fall short of, the possession belonging to the ownership; then moves it on the ledger between the two holdings written out, otherwise changes nothing; totals stay |
| AssetUniverse.Universe.TransferShareOwnershipAndPossession | src/assets/assets.h:464-640 | the same for a change of owner, under the managing contracts of the source; the zero key burns, except shares of contracts |
| AssetUniverse.Universe.Burn | src/assets/assets.h:494-546 | n shares leave the ledger and the total of the issuance |
| AssetUniverse.Universe.IssueAsset | src/assets/assets.h:199-293 | refuses and changes nothing exactly if some slot holds an issuance of that name whose issuer has the same three low words; otherwise writes exactly the three records, for any number of shares; the issuer then holds all shares and other totals stay; the invariant is kept exactly for numbers from 0 to 2^63 - 1 |
| AssetUniverse.Universe.GetUniverseDigest | src/assets/assets.h:724-813 | returns the root of a from-scratch tree and leaves all nodes current and all flags clear |
| AssetUniverse.Universe.PlacePossession | src/assets/assets.h:893-970 | the three probes and writes for one possession |
| AssetUniverse.Universe.AssetsEndEpoch | src/assets/assets.h:884-979 | the ledger keeps exactly its positive entries, exactly the records without shares disappear, and the invariant holds again |
| Limbs.AddCarry | src/four_q.h:528-532 | sum and carry of two limbs lose nothing |
| Limbs.SubBorrow | src/four_q.h:534-538 | difference and borrow of two limbs lose nothing |
| Limbs.Umul | src/four_q.h:546-560 | the two halves of a product of limbs lose nothing |
| FourQField.FpAdd | src/four_q.h:528-532 | the sum modulo 2^127 - 1, below 2^127, for any overlap of arguments and result |
| FourQField.FpSub | src/four_q.h:534-538 | the difference modulo 2^127 - 1, below 2^127 |
| FourQField.FpNeg | src/four_q.h:540-544 | 2^127 - 1 minus the value |
| FourQField.Mod1271 | src/four_q.h:521-526 | the canonical residue |
| FourQField.MulLimbsCorrect | src/four_q.h:546-560 | the folded columns are congruent to the product, with no lost carry |
| FourQField.FpMul | src/four_q.h:546-560 | below 2^127 and congruent to the product |
| FourQField.FpSqr | src/four_q.h:562-575 | below 2^127 and congruent to the square |
| FourQField.Fp2Mul | src/four_q.h:644-656 | multiplication in GF(p^2), also when the result overwrites an argument |
| FourQField.Fp2Sqr | src/four_q.h:633-642 | squaring in GF(p^2), also in place |
| FourQExp.FpExp1251 | src/four_q.h:577-610 | congruent to a to the power 2^125 - 1 |
| FourQOrder.Multiply | src/four_q.h:696-741 | the exact 512-bit product of two 4-limb numbers |
| FourQOrder.MontgomeryMultiply | src/four_q.h:743-785 | for any ma and mb below the order, ma * mb / 2^256 modulo the order, below the order |
| FourQOrder.ReduceOnce | src/four_q.h:780-784 | one conditional subtraction brings a value below twice the order into range |
| FourQOrder.ReduceScalar | src/four_q.h:930-931 | the two Montgomery calls give k modulo the order for every 256-bit k |
| FourQRecoding.WnafRecode | src/four_q.h:1307-1349 | stays within 65 digits; the digits sum to the scalar; each is 0 or odd below 2^(w-1); w consecutive ones hold at most one nonzero |
| FourQRecoding.OddScalar | src/four_q.h:930-942 | an odd scalar congruent to k modulo the order |
| FourQRecoding.SignDigits | src/four_q.h:944-960 | the sign row of the comb |
| FourQRecoding.BitDigits | src/four_q.h:961-980 | the other rows, with the running scalar ending at 0 |
| FourQRecoding.FixedBaseRecode | src/four_q.h:944-980 | the signed digits of every odd k below 2^247 sum to k |
| FourQRecoding.FourWayRecode | src/four_q.h:1594-1611 | signs and digits reconstruct all four sub-scalars; what is left on top is a table index in 0..7 |
| GroupSums.TimesAdd | src/four_q.h:1370-1372 | multiples add up, for all integers |
| GroupSums.TimesTimes | src/four_q.h:1370-1372 | a multiple of a multiple is the multiple by the product |
| GroupSums.CombinationAt | src/four_q.h:1427-1510 | adding a multiple of one point changes one coefficient |
| GroupSums.CombinationConcat | src/four_q.h:1427-1510 | the combination of two groups of points is the sum of their combinations |
| GroupSums.CombinationMultiples | src/four_q.h:1427-1510 | a combination of multiples of one point is a multiple of it |
| FourQDecompose.MulTruncate | src/four_q.h:1252-1276 | the product of two 256-bit numbers divided by 2^256, modulo 2^64, although the code drops carries |
| FourQDecompose.RoundingFits | src/four_q.h:1278-1306 | for every 256-bit scalar the rounded coordinates give four sub-scalars between 0 and 2^64, with and without the parity step |
| FourQDecompose.OddFits | src/four_q.h:1297-1304 | after the parity step the first sub-scalar is odd and all four still fit |
| FourQDecompose.SubsSum | src/four_q.h:1278-1306 | the combination of four points by the sub-scalars of k is k times the first, if the lattice basis of the constants consists of relations between the points |
| FourQDecompose.EigenRelated | src/four_q.h:1278-1306 | for a point of prime order that the endomorphisms multiply by PHI and PSI, the lattice basis of the constants consists of relations between the point and its images |
| FourQDecompose.Decompose | src/four_q.h:1278-1306 | the four words computed modulo 2^64 are these sub-scalars, for every 256-bit k |
| FourQLoops.AddDigitCorrect | src/four_q.h:1431-1440 | the look-up for a digit, negated for a negative one, adds the digit's multiple |
| FourQLoops.PrecompDouble | src/four_q.h:1351-1368 | the table of the first four odd multiples |
| FourQLoops.AddPosition | src/four_q.h:1427-1510 | doubling and one digit of every scalar extend all coefficients by one position |
| FourQLoops.Interleaved | src/four_q.h:1427-1510 | the interleaved loop evaluates the sum of scalar_j times P_j for any number of recoded scalars |
| FourQLoops.InterleavedDouble | src/four_q.h:1408-1515 | recoding, tables and loop together give the combination of the images of Q and of the generator by any eight words |
| FourQLoops.MulDouble | src/four_q.h:1370-1515 | l times Q plus k times the generator for all 256-bit k and l, if both points have prime order and the endomorphisms multiply them by PHI and PSI, or more generally if the lattice basis relates their images |
| FourQLoops.CofactorClearing | src/four_q.h:1558-1573 | multiplication by 392 |
| FourQLoops.Precomp | src/four_q.h:1517-1556 | entry u is P plus the images named by the bits of u |
| FourQLoops.FourWayLoop | src/four_q.h:1614-1628 | the loop evaluates the four-way code |
| FourQLoops.MulDecomposed | src/four_q.h:1591-1632 | clearing, recoding, table and loop together give the combination of the four images of 392 P by four words, the first odd |
| FourQLoops.MulVariable | src/four_q.h:1575-1632 | k times 392 P for every 256-bit k, if 392 P has prime order and the endomorphisms multiply it by PHI and PSI, or more generally if the lattice basis relates its images |
| FourQComb.ColumnRows | src/four_q.h:985-1110 | five look-ups ten apart cover a column of 25 digits |
| FourQComb.LookupCorrect | src/four_q.h:677-694 | a look-up gives the signed multiple that five digits fifty apart stand for |
| FourQComb.CombLoop | src/four_q.h:985-1110 | 50 look-ups and 9 doublings give the multiple by the value of all 250 digits |
| FourQComb.MulFixed | src/four_q.h:925-1113 | k times the generator for every 256-bit k, if the order annihilates the generator |
| Sponge.AbsorbConcat | src/kangaroo_twelve.h:629-755 | absorbing a concatenation is absorbing its parts |
| Sponge.AbsorbPart | src/kangaroo_twelve.h:670-753 | bytes within a block can be added in one go |
| Sponge.NodeIsTurbo | src/kangaroo_twelve.h:903-912 | absorbing and closing a node is TurboSHAKE128 of section 2 of RFC 9861 |
| Sponge.SpongeNode.XorLanes | src/kangaroo_twelve.h:720-744 | adding bytes lane by lane from inside a block |
| Sponge.SpongeNode.AbsorbBlocks | src/kangaroo_twelve.h:634-669 | whole blocks taken directly equal byte-wise absorbing |
| Sponge.SpongeNode.Absorb | src/kangaroo_twelve.h:629-755 | equals byte-wise absorbing for every length and position |
| Sponge.SpongeNode.Close | src/kangaroo_twelve.h:908-910 | domain byte, final bit and permutation |
| KangarooTree.ChainAppend | src/kangaroo_twelve.h:783-803 | the chaining values of a message grow leaf by leaf |
| KangarooTree.QueueFull | src/kangaroo_twelve.h:1038-1047 | a full leaf is chained and the trunk extended |
| KangarooTree.LeafDone | src/kangaroo_twelve.h:968-978 | a leaf given by its chaining value extends the trunk the same way |
| KangarooTree.TreeDigest | src/kangaroo_twelve.h:989-1017 | count, suffix and closing of the trunk give KT128 |
| KangarooReference.TurboIsRounds | src/kangaroo_twelve.h:903-912 | TurboSHAKE128 with its constants: message, domain byte, zeros up to a multiple of 168 bytes, 0x80 in the last byte, block after block into 200 zero bytes |
| KangarooReference.LengthDecodes | src/kangaroo_twelve.h:995-1008 | section 3.3 of RFC 9861 read back: the last byte is the number of bytes before it, these are the number with the most significant first, and no zero leads |
| KangarooReference.LengthReadOff | src/kangaroo_twelve.h:995-1008 | so the count, and what stands before it, can be read off the end |
| KangarooReference.LengthExamples | src/kangaroo_twelve.h:995-1008 | the values of the RFC: 00 for 0, 0C 01 for 12, 01 00 02 03 for 65538 |
| KangarooReference.Kt128Short | src/kangaroo_twelve.h:805-829 | below 8192 bytes KT128 is TurboSHAKE128 of message and zero byte with domain 0x07 |
| KangarooReference.Kt128Long | src/kangaroo_twelve.h:757-893 | from 8192 bytes on it is TurboSHAKE128 with domain 0x06 of the first 8192 bytes, 03 and seven zeros, 32 bytes with domain 0x0B for each further 8192 or less, their encoded number, FF FF |
| KangarooTwelve.EncodeCount | src/kangaroo_twelve.h:995-1008 | the bytes of the count with the most significant first and no leading zero, their number, then two 0xFF bytes: length_encode of section 3.3 of RFC 9861 |
| KangarooTwelve.MarkFirstChunk | src/kangaroo_twelve.h:1021-1036 | the marker behind the first chunk, as the eight bytes 03 00 .. 00 |
| KangarooTwelve.ChainLeaf | src/kangaroo_twelve.h:1038-1047 | the closed leaf's chaining value goes to the final node |
| KangarooTwelve.Leaf | src/kangaroo_twelve.h:903-912 | the chaining value of a leaf |
| KangarooTwelve.FinishTree | src/kangaroo_twelve.h:989-1017 | the final state is that of KT128 |
| KangarooTwelve.Stream.constructor | src/kangaroo_twelve.h:926-929 | the stream of the empty message |
| KangarooTwelve.Stream.Update | src/kangaroo_twelve.h:931-964 | the stream holds the message so far followed by the new bytes, for every split |
| KangarooTwelve.Stream.AbsorbChainingValue | src/kangaroo_twelve.h:968-978 | at a leaf boundary the chaining value of a leaf stands for the leaf |
| KangarooTwelve.Stream.Finalize | src/kangaroo_twelve.h:980-1018 | the digest is KT128 of the message |
| KangarooOneShot.AddSuffix | src/kangaroo_twelve.h:805-829 | the zero byte of the empty customization string, folded into positions |
| KangarooOneShot.Hash | src/kangaroo_twelve.h:757-893 | the output is copied from the final state of KT128 and the memory behind it, for every output length; up to 168 bytes it is KT128 |
| KangarooOneShot.CopiedIsKt128 | src/kangaroo_twelve.h:891-892 | for every length the copied bytes are KT128 exactly if they stay within one block or what follows the block happens to equal the next output blocks |
| KangarooOneShot.CopiedFromState | src/kangaroo_twelve.h:891-892 | from 169 to 200 bytes they are KT128 exactly if the rest of the state equals the start of the next one |
| KangarooOneShot.CopiedFails | src/kangaroo_twelve.h:891-892 | a permutation of the states for which every message and every length from 169 on fails |
| KangarooOneShot.CopiedExactly | src/kangaroo_twelve.h:891-892 | the copied bytes are KT128 for every permutation of the states exactly up to 168 bytes |
| KangarooOneShot.StreamAgrees | src/kangaroo_twelve.h:914-917 | stream and one-call digest agree for every split and every choice of leaves handed over as chaining values |
| TopK.TopStep | src/revenue.h:299-312 | inserting a score and dropping the last keeps the largest ones |
| RevenueFactors.QuorumScore | src/revenue.h:287-318 | a value of at least 2 is reached by quorum scores exactly if it does not exceed the result; the result is at least 1 |
| RevenueFactors.QuorumReaches | src/revenue.h:287-318 | the same with the number of computors that reach a value as the size of a set |
| RevenueFactors.QuorumScoreUnique | src/revenue.h:286-318 | that describes the result completely |
| RevenueFactors.RevFactors | src/revenue.h:324-356 | each factor is the one computed with 64-bit wrap-around, and the promised one where all scores meet the asserted bound; none exceeds the threshold |
| RevenueFactors.FactorFull | src/revenue.h:320-356 | the full factor goes exactly to nonzero scores that reach the quorum score |
| RevenueFactors.FactorMonotone | src/revenue.h:320-356 | a higher score never has a lower factor |
| RevenueFactors.FactorShare | src/revenue.h:336-353 | below the quorum score the factor is the floor of the share of the threshold that the score is of the quorum score |
| RevenueFactors.FactorFits | src/revenue.h:349-351 | the assertion holds exactly if the product fits into 64 bits |
| RevenueFactors.FactorExact | src/revenue.h:336-353 | the factor computed with 64-bit wrap-around is the promised one exactly if the score reaches the quorum score or the asserted bound holds, and never exceeds the threshold |
| RevenueFactors.FactorWraps | src/revenue.h:347-353 | a score for which the wrapped product gives the factor 0 instead of 1023 |
| RevenueFactors.FactorsOrFull | src/revenue.h:529-551 | factors as computed, exact under the asserted bound, or the full factor for everyone in an idle epoch |
| RevenueFactors.V2PaymentBounds | src/revenue.h:556-569 | a payment lies between 0 and the share per computor, is all of it for full factors, and no step leaves 64 bits |
| RevenueFactors.V2PaymentMeans | src/revenue.h:556-569 | without mining the payment is the mean of 17 parts transactions and 3 parts oracle over 1280, with full mining the same over 1024 |
| RevenueFactors.V2PaymentWeights | src/revenue.h:556-569 | transactions alone bring 870 / 1280, the oracle alone 153 / 1280, all factors everything; full mining raises every payment by a quarter up to rounding |
| RevenueFactors.V2PaymentMonotone | src/revenue.h:556-569 | a factor that rises never lowers the payment |
| RevenueFactors.MultiDimPaymentBounds | src/revenue.h:792-799 | the same for the gate formula; a zero factor pays nothing |
| RevenueFactors.GateShares | src/revenue.h:792-799 | with the others full the payment is proportional to each factor, for the doge factor to its root: a quarter of it brings half |
| RevenueFactors.GateMonotone | src/revenue.h:792-799 | a factor that rises never lowers the payment |
| RevenueWindow.CircSlide | src/revenue.h:724-732 | moving a circular window by one tick subtracts one tick and adds one, without underflow |
| RevenueWindow.WindowIsSum | src/revenue.h:685-735 | the window of tick c is the sum of the rows of ticks c - h to c + h, counted round the epoch |
| RevenueScores.TickScoreRange | src/revenue.h:613-641 | a tick score lies in [0, SCALE]; full without deficits, 0 for an empty tick in a used window |
| RevenueScores.TickScoreIs | src/revenue.h:613-641 | the score is 1024 less 1024 times the root of the summed squares of what 2 * computors - 1 times the observation falls short of the window, over the root of the summed squares of the window; 1024 for an empty window |
| RevenueScores.TickSumsFit | src/revenue.h:395-400 | the static bound on the constants keeps every number of a tick score in 64 bits: scaled observations, deficits, squares, both sums and the scaled root |
| RevenueScores.SizeFits | src/revenue.h:395-400 | the asserted bound on the sums of squares also limits the window to less than 16384 ticks |
| RevenueScores.NodeFits | src/revenue.h:395-400 | the constants of the node meet this bound |
| RevenueScores.TallyBounded | src/revenue.h:638-641 | nobody gets more than SCALE per scored tick |
| RevenueScores.RotationTally | src/revenue.h:643-735 | scoring the ticks in rotated order gives everyone the same total as in tick order |
| RevenueStream.RingStep | src/revenue.h:587-590 | after a tick the ring holds the last W ticks |
| RevenueStream.RingEvict | src/revenue.h:645-655 | the slot of a new tick holds exactly the tick that leaves the window |
| RevenueStream.EdgeWindow | src/revenue.h:695-711 | the first edge sums are the circular window of tick N - H |
| RevenueStream.SlideWindow | src/revenue.h:724-733 | the rows that leave and enter give the circular window of the next tick |
| RevenueStream.TalliesFit | src/revenue.h:349-351 | the scores of an epoch meet the bound that the factors assert |
| RevenueStream.MultiDimRevenue.constructor | src/revenue.h:573-585 | an epoch without ticks |
| RevenueStream.MultiDimRevenue.FinalizeTickScore | src/revenue.h:611-641 | computor (initialTick + c) mod computors gets the score of observation and window, nobody else changes, and no number leaves 64 bits |
| RevenueStream.MultiDimRevenue.RevenueOnTick | src/revenue.h:643-676 | the new tick is stored unchanged; every interior tick seen so far has been scored once with its window; all sums stay in 64 bits |
| RevenueStream.MultiDimRevenue.ObsAt | src/revenue.h:678-682 | the row read is the one of the requested tick |
| RevenueStream.MultiDimRevenue.ScoreEpochEdgeTicks | src/revenue.h:685-735 | all N ticks are scored in one turn, each with its own observation and circular window; fewer than W ticks score nothing; the scores meet the bound that the factors assert |
| RevenueStream.ScoredOnce | src/revenue.h:643-735 | every tick stands in the record exactly once, with exact observation and window |
| RevenueStream.EpochScores | src/revenue.h:643-735 | the scores equal those of a batch over the whole epoch |
| RevenueStream.EpochTotal | src/revenue.h:638-735 | computor k has the sum of the scores of the ticks t with (initialTick + t) mod computors equal to k, each with the window of computors - 1 ticks on either side |
| RevenuePayout.SlidingScores | src/revenue.h:495-524 | the sliding pass in 64 bits equals the direct circular window of every tick; the scores meet the bound that the factors assert |
| RevenuePayout.V2Total | src/revenue.h:486-524 | computor k has, for the ticks t with (initialTick + t) mod computors equal to k, the sum of points times 1024 times 2 * computors - 1 over the points of the window; the table entry of the count, the last one for larger counts |
| RevenuePayout.V2TallyFits | src/revenue.h:515-520 | the scores of an epoch and their products with SCALE fit into 64 bits |
| RevenuePayout.ComputeRevenueV2 | src/revenue.h:473-570 | scores as sums over the ticks each computor leads, factors and payments of the first formula, all in 64 bits; nothing for fewer than W ticks; no payment above the share |
| RevenuePayout.ComputeMultiDimRevenue | src/revenue.h:737-799 | scores as sums over the ticks each computor leads, factors and payments of the second formula, all in 64 bits; no payment above the share |
| OrderBook.PlacedBest | src/contract_core/ipo.h:46-105 | placing a bid behind all that pay at least as much keeps every bid at its rank: by price, earlier first among equals |
| OrderBook.BestUnique | src/contract_core/ipo.h:46-105 | the bids determine the book |
| OrderBook.PlacedMoney | src/contract_core/ipo.h:46-105 | book and released bid hold what the book and the new bid held, for every bidder and in all |
| IpoAuction.Auction.constructor | src/contract_core/ipo.h:12-14 | the empty book |
| IpoAuction.EnteredCount | src/contract_core/ipo.h:46-105 | of n equal units as many win a place as there are places below their price, at most n |
| IpoAuction.WinningPlaces | src/contract_core/ipo.h:46-105 | that number with the places below the price as the size of a set |
| IpoAuction.CappedTotal | src/contract_core/ipo.h:33 | with the limit on prices the money in the book stays within the largest amount |
| IpoAuction.Auction.Release | src/contract_core/ipo.h:50-67 | the table owes one bidder more and otherwise what it owed, within signed 64 bits |
| IpoAuction.Auction.Place | src/contract_core/ipo.h:88-100 | the new bid ends behind all bids that pay at least as much |
| IpoAuction.Auction.PayOut | src/contract_core/ipo.h:108-119 | every bidder is credited exactly what is owed |
| IpoAuction.Auction.BidInContractIPO | src/contract_core/ipo.h:24-124 | a bid is refused exactly for bad price or quantity or missing funds and then changes nothing; otherwise the book is the best of all bids, the result is the smaller of the quantity and the number of places below the price, the payment equals refunds plus growth of the book, all of them within signed 64 bits, there are at most quantity refunds, and every bidder has the same money in balance and book together |
| IpoFinish.RefundMoney | src/contract_core/ipo.h:147-166 | refund and final price per place are what was paid, for every bidder and in all |
| IpoFinish.HandedCounts | src/contract_core/ipo.h:167-171 | each bidder gets one share per place, the issuer loses as many, other holdings stay |
| IpoFinish.NoHoldings | src/contract_core/ipo.h:137-143 | an asset that can be issued has no holdings yet |
| IpoFinish.ServedRoom | src/contract_core/ipo.h:167-171 | a share for a bidder who holds one already takes no slot |
| IpoFinish.DecidePrice | src/contract_core/ipo.h:135-143 | the final price is the last of the book, or 0 if the asset cannot be issued; the issue takes three slots and holds name and unit |
| IpoFinish.DealPlaces | src/contract_core/ipo.h:144-172 | refunds are entered for all places and one share each is handed out |
| IpoFinish.FinishIPO | src/contract_core/ipo.h:126-195 | the book total splits into refunds and N times the final price, the fee reserve, all within signed 64 bits; the final price is the last of the book, or 0 exactly if an issuance of that name by a key with three zero low words exists or the last price is 0; on success every bidder holds exactly one share per place and the issuer none |
| TaskQueue.StepKeeps | src/score.h:346-452 | every step of every thread keeps the invariant, tasks added during a drain included, except exactly a reset while a task runs |
| TaskQueue.CountersOrdered | src/score.h:346-372 | finished, processing, queued and capacity are ordered at every moment of every run without such a reset |
| TaskQueue.ResetWhileRunning | src/score.h:346-353 | a run with a reset while a task runs, after which one task of none has finished |
| TaskQueue.DrainComplete | src/score.h:425-452 | when a drain closes the queue, every task queued while the drainer was in its loop, or before, has run exactly once with its own payload and runs no more |
| TaskQueue.DrainFromOpen | src/score.h:425-452 | in particular every task queued when the drain began |
| TaskQueue.BatchIsAsked | src/score.h:355-372 | at every moment of every run the batch holds the payloads of the fitting additions since the last reset, in order, cut at the number of slots |
| TaskQueue.AddedTaskRuns | src/score.h:355-452 | a fitting task added before a moment of the drain, without a reset in between, has run under its own number when the queue closes, exactly if fewer tasks than there are slots were asked for before it |
| TaskQueue.AddedBeforeOpen | src/score.h:355-452 | in particular a task added before the drain began |
| TaskQueue.AnyThreadTakes | src/score.h:383-423 | while the queue is open every idle thread that may work can take the next task, with its payload |
| TaskQueue.CanClose | src/score.h:425-452 | a drain can always be brought to its end, whatever the threads have done so far |
| TaskQueue.SureToRun | src/score.h:425-452 | at any moment of a drain all tasks queued so far are sure to be run, however the threads go on, exactly if the drainer is still in its loop or all of them have finished |
| TaskQueue.AddedTaskSure | src/score.h:425-452 | a task added during a drain is sure to be run exactly if the drainer has not been told that all is done |
| TaskQueue.DrainQuiet | src/score.h:425-452 | if nothing was added meanwhile, the tasks run are the batch and no task is running |
| TaskQueue.LateTaskStays | src/score.h:425-451 | a run from the empty queue whose drain leaves a task behind |
| TaskQueue.NeverStuck | src/score.h:383-423 | an unfinished batch has a task to take or a task being run |
| ScoreCache.FetchRight | src/score_cache.h:57-100 | after any stores, overwrites and resets, a fetched valid score is the score of the key |
| ScoreCache.ScoreAnyRun | src/score.h:277-294 | whatever other threads store or clear before the fetch and between fetch and store, the score returned is the computed one and the cache stays truthful |
| ScoreCache.StoreThenFetch | src/score_cache.h:59-112 | a valid score stored where the fetch ended is found by the next fetch |
| ScoreCache.FetchFinds | src/score_cache.h:57-100 | an entry is found if it lies within the tries, going round the table slot by slot, behind slots occupied by other keys |
| ScoreCache.Cache.Reset | src/score_cache.h:26-34 | all slots empty, all counters zero |
| ScoreCache.Cache.TryFetching | src/score_cache.h:57-100 | the bounded probe, the slot it reports, and which counter it raises |
| ScoreCache.Cache.AddEntry | src/score_cache.h:102-112 | one slot is overwritten |
| ScoreCache.Cache.Score | src/score.h:261-300 | the cached score equals the uncached one, refusals included, and the cache stays truthful; ScoreAnyRun extends this to other threads acting in between |
| VotePacket.SplitJoin | src/vote_counter.h:28-43 | writing an entry of 10 bits into its two bytes gives it back and leaves all other bits |
| VotePacket.OrDisjoint | src/vote_counter.h:36-42 | masked bits and shifted bits do not overlap, so combining them adds them |
| VotePacket.ExtractUpdated | src/vote_counter.h:17-43 | a written entry reads back |
| VotePacket.OthersKept | src/vote_counter.h:28-43 | a write leaves every other entry unchanged |
| VotePacket.FourEntries | src/vote_counter.h:17-43 | the layout: five bytes, most significant first, are the number that four entries of 10 bits are |
| VoteCounter.SlotTells | src/vote_counter.h:58-62 | a slot that was not reused holds its tick exactly if the computor voted in it, except that an unused slot 0 looks like a vote in tick 0 |
| VoteCounter.CountsExact | src/vote_counter.h:70-79 | in a window without overwritten votes the slots count the votes exactly if the window starts after tick 0, or is empty, or slot 0 was used |
| VoteCounter.TickZeroCounts | src/vote_counter.h:70-79 | in a window from tick 0 an unused slot 0 counts as one vote too many |
| VoteCounter.TickZeroExample | src/vote_counter.h:70-79 | without any vote the window of tick 0 counts one |
| VoteCounter.Counter.constructor | src/vote_counter.h:52-56 | the empty counter |
| VoteCounter.Counter.RegisterNewVote | src/vote_counter.h:58-62 | every slot holds the last vote made in it |
| VoteCounter.Counter.CompressNewVotesPacket | src/vote_counter.h:64-85 | the entries are, for every computor, the number of window slots that hold their own tick, 0 for the reporter, exactly if all these numbers are below 1024; where no vote was overwritten the number is that of the ticks voted in, plus one exactly in a window from tick 0 with an unused slot 0; a window that ends before it starts counts nothing; bytes behind the entries stay, except that the first eight are cleared |
| VoteCounter.Counter.ShortWindow | src/vote_counter.h:64-85 | in a window below 1024 ticks all numbers are below 1024 |
| VoteCounter.PacketReports | src/vote_counter.h:64-85 | the count a receiver reads is the number of ticks voted in exactly under the condition of CountsExact |
| VoteCounter.Counter.ValidateNewVotesPacket | src/vote_counter.h:87-110 | accepts exactly the acceptable packets |
| VoteCounter.AcceptableMeans | src/vote_counter.h:87-110 | these are the packets whose entries are at most the number of computors n, sum to at least n - 1 times the quorum 2n/3 + 1, and are 0 for the reporter |
| VoteCounter.QuorumIsLeast | src/network_messages/common_def.h:11 | the quorum is the least number that is more than two thirds of the computors |
| VoteCounter.Counter.AddVotes | src/vote_counter.h:112-122 | adds exactly the counts of an accepted packet and nothing of another |

## Left out

- File loading and saving, console logging, network handlers and locks: input, output and plumbing. Functions that take a lock are modelled as one atomic step.
- The words of asset change flags: the model keeps their 64 bits as booleans, so word-wide tests and shifts are tests and moves of bits.
- Lanes of the hash state: 64-bit exclusive-or is written byte by byte; the split of a partial block into lanes is kept.
- Masks and shifts of the vote packet: written as division and remainder; only the bitwise or of the first byte, where bits can overlap, is kept.
- The 1600-bit permutation, the specialised 64-to-32-byte hash, leaf and pair hashes of the universe: function parameters, so that the results hold for any of them.
- Point formulas, endomorphisms, point validation and the contents of the precomputed tables of FourQ: the loops are proved for any abelian group, the tables are assumed to hold the multiples their comments name, and what the endomorphisms multiply a point of prime order by is a hypothesis. Encoding and signatures are not modelled.
- The unrolled look-ups of the fixed-base multiplication: written as two nested loops with the same order of look-ups and doublings.
- AssetUniverse.Universe.IssueAsset: needs three free slots, without which the probe of the code does not end.
- AssetUniverse.Universe.TransferShareOwnershipAndPossession: needs a free slot for every record it has to create, without which the probe of the code does not end.
- AssetUniverse.Universe.IssuanceIndex: needs a slot that stops the probe, the record or a free slot, without which the probe of the code does not end; so does NumberOfPossessedShares.
- RevenueStream.MultiDimRevenue.RevenueOnTick: ticks come one after the other from tick 0, as the tick processor calls it; at most 4096 transactions per tick, the capacity of a tick; at most 2^30 ticks, with 32-bit tick numbers.
- RevenuePayout.ComputeRevenueV2: at most 34071 points per tick, the largest entry of the table of logarithms, windows below 16384 ticks, and the same bounds on ticks.
- TaskQueue.StepKeeps: one thread at a time drains the queue, and opens and resets it between drains, as the tick processor does.
- KangarooOneShot.Hash: reading the memory behind the state is undefined in the source language; the model takes its contents as a parameter.
- Rows of the revenue ring and head: sequences instead of one flat buffer.
- The integer square root of the revenue formulas: assumed to be the exact floor.
- IpoAuction.Auction.BidInContractIPO: balances of the spectrum are unbounded numbers; for bidders in the spectrum, as its caller asserts; anti-dust burning, which a refund can set off, and notifications of contracts are not modelled.
- IpoFinish.FinishIPO: one contract of the loop over contracts; if the asset is going to be issued, with free slots for its three records and for two of every bidder, without which a probe of the code does not end.
- IpoFinish.DecidePrice: needs three free slots if the asset is going to be issued, without which a probe of the code does not end.
- KangarooTwelve.Stream.Finalize: for messages below 2^64 bytes, so that the block counter does not wrap.
- Asset iterators read the same index lists without changing them; the spectrum has its own table of balances; contract execution, mining engines, settings and sorting helpers share no state with the structures above. None of them is modelled.
