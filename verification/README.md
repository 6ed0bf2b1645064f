# A verified model of the BSC node's safety-critical logic

This project models, in Dafny, the parts of the BNB Smart Chain node that must not go wrong,
and proves what they promise over every input, every run or every reachable state. Run
`dafny verify dfyconfig.toml` to check it.

## What is modelled

**Fast-finality votes.** A validator votes for each canonical head. The producer passes the
head through a row of gates, composes a vote from the head's snapshot, hands it to an on-disk
journal and only then broadcasts it. The journal keeps the last 512 votes in memory, refuses a
second vote for a height, looks back 256 heights and ahead 11 for votes that would surround or
be surrounded, and rebuilds its memory from the file after a crash. Votes of two thirds of the
validators justify a block; a justified block whose direct child is justified from it is
finalized. The proofs compose these layers: a node that runs the producer is a node whose
journal serializes its votes (`ProducerRuns`), such a journal answers like an unbounded one
(`JournalRuns`, `JournalBounds`), fewer than a third of other validators cannot finalize two
branches (`Finality`), and what the fork-choice engine reports is finalized in that sense
(`FastFinality`, `FinalityBounds`). What it reports follows exactly from the attestations of the
branch and the pooled votes (`FinalityProgress`). `NodeSafety` puts the layers together, and
`NodeBounds` and `ReachBounds` show with producer runs that its conditions are needed.

**Bounded caches.** The double-sign guard (100 heights, least recently used) under any
interleaving of submission workers, and the two-index block body cache. `Lru` holds the list
model both share, and proves exactly what such a list remembers.

**RLP codecs.** Sidecars, bodies and blocks. Every decoder is shown to accept exactly the
encodings of what it returns, with any bytes after them, and the encodings are those of a
recursive definition over trees (`RlpTrees`).

**Calendar, bids, gas, authorizations, storage.** The Gregorian calendar behind the RFC 3339
printer, the per-builder bid quota, the gas-limit rule along chains of headers, the EIP-7702
authorization loop, and blob sidecars written to and read from a store that answers in any
order.

Code that updates state in place is modelled by classes and methods with loops
(`VoteDataLru`, `VoteJournal`, `VoteProducer`, `LruMap`, `MinedBlockGuard`, `BodyCache`,
`PendingBids`, `Journal`, `BscStorage`, `Output`, `Cursor`); each method is proved equal to a
function on values, and the results about whole runs are proved about those functions.

## Bounds that turned out to be exact

- The 512-entry journal answers like an unbounded one as long as a new target is at most **255**
  below the highest target so far, and for 256 a run is given that votes twice for one height.
  With 127 a forgotten height also lies outside every window.
- Two reports of finality agree if their heights differ by at most **12** and fewer than a third of
  the validators are faulty, and up to **257** heights if fewer than a third are anything but honest
  with targets that only rise; the others may do what they like. For 13 and 258 two branches are
  both reported, also in a network of nodes that run the vote producer.
- Reports at one height agree for honest validators of a given reach, and for nodes that run the
  producer, **if and only if** the reach is at most 255: at 256, three producers that follow every
  rule have two rival blocks finalized.
- A report of finality never falls below a block that some header of the branch attested from its
  parent. From a header to its child it falls **if and only if** something is justified at the
  header, it reported early, from pooled votes, and the child carries no attestation.
- A height whose write was attempted, failed or not, stays claimed in the process **exactly** until
  512 further claims were made.
- The 100-height guard is exact up to **49** heights below the highest one used; for 50 a slot is
  sent twice.
- After a crash or a failed rollback the journal file may end in a torn line, and a record
  appended to it is glued to the torn piece. Over every run in reach, whatever is torn and
  whenever, a vote whose own append began on a complete line is never contradicted by a later
  one. At every reachable state the next vote is kept for ever **if and only if** the file ends in
  a complete line: otherwise a restart forgets it and a different vote for its height goes out.
  On torn lines alone journal and producer hold back nothing, and two rival blocks at one height
  are both finalized, so the finality theorems ask that every broadcast vote began on a complete
  line. That is so whenever rollbacks succeed and crashes leave nothing or the whole line.
- The bid quota per drop of the head is reached: after each drop a builder gets the whole quota again.
- A stored body is read back as it was **if and only if** its sidecars, when present, are a
  nonempty list in block order with matching block and transaction data and version 0, and the
  store has no EIP-4844 entry of another origin for its blob transactions. A body without
  sidecars whose blob transaction is already in the store is not: it is read with sidecars.
- Printed timestamps sort as strings like the instants below a limit **if and only if** the limit
  is at most the first second of the year 10000; they are different for different instants always.

## Assumptions

- Block numbers and lengths stay far enough below 2^64 that the additions in the code do not
  overflow; they are natural numbers here.
- A header hash determines its header, so a hash is modelled by the block it names. A vote in a
  header's or pool's name was cast by that validator: signatures are taken as given.
- The validator set is fixed, Plato is active, and the pool of votes for a header holds at most one
  vote of each validator. Fermi and Lorentz activation are free fields of a header, so the
  results hold for every fork schedule.
- A journal line that was written whole parses back to the same vote, and the memory-only mode is
  off.
- Foreign code follows its documentation: the least-recently-used maps, the RLP primitives
  (Appendix B of the Ethereum Yellow Paper), the decoders of transactions, headers and
  withdrawals, which accept some set of RLP items and reproduce them, the database, and the constants 5000 and 1024 (gas
  limit) and 25000 and 12500 (authorizations).

The comment on `MAX_RECENT_ENTRIES` in `src/node/vote_journal.rs` says that the limit also holds
on disk; the code never shortens the file, and neither does the model.

## Model

| member | source | states |
|---|---|---|
| VoteJournal.VoteDataLru.Add | src/node/vote_journal.rs:29-39 | the queue and the map change together: a new key is queued and the oldest one leaves past capacity, a known key keeps its place and gets the new value |
| VoteJournal.VoteJournal.CheckRules | src/node/vote_journal.rs:100-135 | the two window scans decide exactly: the height is unused, no vote in the backward window has a higher source, none in the forward window a lower one |
| VoteJournal.LoadFromDisk | src/node/vote_journal.rs:73-91 | loading keeps the last 512 parsable lines, an unterminated last one included, in order |
| VoteJournal.VoteJournal.WriteVote | src/node/vote_journal.rs:138-172 | refusal changes nothing, an open failure changes nothing, any attempted write claims the height in memory whatever it leaves in the file |
| JournalRuns.AppendReadableIffClean | src/node/vote_journal.rs:152-163 | an appended record is readable exactly when the file ended in a complete line; otherwise it and the torn piece are both lost |
| JournalHistory.AddExtendsFifo | src/node/vote_journal.rs:29-39 | adding a new height to the cache of a history gives the cache of the longer history |
| JournalHistory.LoadIsFifo | src/node/vote_journal.rs:73-91 | the cache loaded from a file is the cache of the votes the file holds |
| JournalHistory.RulesMeanAdmitsAll | src/node/vote_journal.rs:100-135 | the map-based rules say that the new vote conflicts with no vote of the history, pair by pair |
| JournalHistory.ForgottenHeightAdmits | src/node/vote_journal.rs:100-135 | a vote evicted from the cache cannot conflict with a new vote that the cache admits, up to reach 255 |
| JournalHistory.ForgottenHeightIsOutOfWindows | src/node/vote_journal.rs:107-132 | up to reach 127 an evicted height lies below the backward window and can never be the target again |
| JournalRuns.CacheDecidesForHistory | src/node/vote_journal.rs:100-135 | the bounded cache admits a vote exactly when the whole history does |
| JournalRuns.InvRun | src/node/vote_journal.rs:138-172 | over every run in reach of writes, failures, crashes and restarts, with any torn lines, the cache is that of one conflict-free history and the file holds some of its votes in order |
| JournalRuns.ParsedAfterLeave | src/node/vote_journal.rs:152-163 | what can be read after any outcome of an append, on a complete and on a torn line |
| JournalRuns.CleanVotesStay | src/node/vote_journal.rs:152-171 | a broadcast vote that began on a complete line stays readable in the file over every later event |
| JournalRuns.BroadcastVotesAreAdmitted | src/node/vote_producer.rs:206-229 | over every run in reach and with no condition on the file, a broadcast vote that began on a complete line admits every later broadcast vote |
| JournalRuns.BroadcastVotesAreConsistent | src/node/vote_producer.rs:206-229 | if every broadcast vote began on a complete line, the whole broadcast history is conflict-free and in reach |
| JournalRuns.BroadcastVotesNeverConflict | src/node/vote_journal.rs:100-172 | over every run in reach, no vote shares its target height with an earlier vote that began on a complete line, and neither surrounds the other within 11 heights, or within 256 when the outer vote came second |
| JournalRuns.LinesStayComplete | src/node/vote_journal.rs:155-163 | if every failed write is rolled back or complete and no crash tears a line, every append begins on a complete line |
| JournalRuns.CompleteLinesNeverConflict | src/node/vote_journal.rs:100-172 | then any two broadcast votes admit each other in order, over every run in reach |
| JournalBounds.ReloadRebuildsMemory | src/node/vote_journal.rs:73-91 | after any run of successful writes and restarts, reloading the file gives exactly the queue and map in memory |
| JournalClaims.AnswersExactly | src/node/vote_journal.rs:138-172 | which of acceptance, rule violation and storage fault is answered, and that only an attempted write changes anything |
| JournalClaims.AttemptClaimsHeight | src/node/vote_journal.rs:155-171 | after any attempted write, rolled back or not, every second vote for the height is a rule violation |
| JournalClaims.RunMatches | src/node/vote_journal.rs:29-39 | over every run the queue holds exactly the keys of the map, none twice, at most 512 |
| JournalClaims.ClaimIsKnownExactly | src/node/vote_journal.rs:29-39 | over every run of any reach and until a restart, an attempted height is known if and only if fewer than 512 further claims were made; past the 512th this asks that no vote for it was attempted again |
| JournalClaims.AttemptedHeightIsRefused | src/node/vote_journal.rs:169-171 | as long as it is known every vote for that height is a rule violation and changes nothing |
| JournalBounds.ServesLikeUnbounded | src/node/vote_journal.rs:29-39 | within one process the bounded journal accepts exactly the votes that an unbounded one accepts and holds its last 512 |
| JournalBounds.UnboundedExactlyUpTo255 | src/node/vote_journal.rs:100-135 | bounded and unbounded journal agree on all request sequences of a given reach if and only if the reach is at most 255 |
| JournalBounds.SpreadIsARun | src/node/vote_journal.rs:29-39 | any votes around a height, 256 below and 256 above, with sources that do not fall as targets rise, are all broadcast, the height twice |
| JournalBounds.NoDoubleVoteExactlyUpTo255 | src/node/vote_journal.rs:100-172 | over all runs of a given reach, no vote repeats the height of an earlier one that began on a complete line, if and only if the reach is at most 255 |
| JournalBounds.ConsistentHistoryIsARun | src/node/vote_journal.rs:138-172 | conversely, every conflict-free history is broadcast by some run on complete lines, so the rules refuse nothing more |
| JournalBounds.AnythingGoesOnTornLines | src/node/vote_journal.rs:152-163 | any sequence of votes at all is broadcast by some run that appends each of them to a torn line |
| JournalBounds.TornAppendIsForgotten | src/node/vote_journal.rs:73-91 | after any run that ends in a torn line, a vote and a restart, whatever the older records admit goes out too |
| JournalBounds.VoteIsKeptExactlyIfClean | src/node/vote_journal.rs:138-172 | at every reachable state, no continuation sends a (different) vote for the height of the vote sent next if and only if the file ends in a complete line |
| Lru.RemembersExactly | src/node/vote_producer.rs:29-30 | a bounded least-recently-used set holds a key exactly while fewer than its capacity of other keys were used since |
| Lru.BoundedTouch | src/shared.rs:559-565 | a bounded least-recently-used map stays the front of the unbounded one, whatever keys are used |
| VoteProducer.VoteProducer.MaybeProduceAndBroadcastForHead | src/node/vote_producer.rs:60-236 | the early-return gates, the deduplication, the warm-up counter, the composed vote and journal-before-broadcast, tied to a declarative description of the next state and the vote sent |
| VoteProducer.VoteProducer.SignAndJournal | src/node/vote_producer.rs:124-235 | a vote leaves only after the journal accepted it; it is the one composed from the head's snapshot |
| VoteProducer.VoteProducer.SetDownloaderActive | src/node/vote_producer.rs:40-43 | only the voting switch changes |
| ProducerRuns.ProducerRefinesJournal | src/node/vote_producer.rs:205-229 | every run of the producer with crashes, restarts and downloader changes is a journal run with the same file, cache and broadcasts |
| ProducerRuns.SentVotesNeverConflict | src/node/vote_producer.rs:60-236 | over every producer run in reach, no vote conflicts with an earlier one that began on a complete line |
| ProducerRuns.ProducerIsHonest | src/node/vote_producer.rs:185-229 | for every reach, a validator that runs the producer on valid heads and whose sent votes began on complete lines is honest in the sense of the finality theorem |
| ProducerRuns.LinesStayComplete | src/node/vote_producer.rs:213-229 | if rollbacks succeed and no crash tears a line, every vote the producer sends began on a complete line |
| ProducerRuns.CounterIsExact | src/node/vote_producer.rs:114-122 | the clamped counter is the number of new heads since the start or since mining was last off, cut at the threshold |
| ProducerRuns.ProducedIsRecency | src/node/vote_producer.rs:96-112 | the deduplication list is the 2048 most recently looked-up heads |
| ProducerRuns.NewHeadExactly | src/node/vote_producer.rs:66-112 | a head counts as new exactly when mining is on, the downloader idle, Luban active, a signer there, and the head was not looked up since the start or 2048 other heads were since |
| ProducerRuns.PersistsExactly | src/node/vote_producer.rs:66-214 | a vote reaches the journal exactly when every gate is open: those on the past are written out over the events of the run, the voting rules over the journal's entries |
| ProducerRuns.VoteLeavesExactly | src/node/vote_producer.rs:60-236 | a vote leaves exactly when, besides, it was stored; it goes from the snapshot's target, or from genesis while nothing is justified, to the head |
| ProducerRuns.SwitchIsExact | src/node/vote_producer.rs:40-43 | the voting switch is the last word of the downloader since the start |
| ProducerRuns.SyncingNodeIsSilent | src/node/vote_producer.rs:75-79 | while the downloader runs, no head is looked up, journalled or sent, whatever is observed |
| Finality.QuorumsMeet | src/node/consensus.rs:1410-1411 | two quorums of the rounded-up two thirds share at least a third of the validators |
| Finality.CrossingLink | src/consensus/parlia/snapshot.rs:335-367 | the justification chain of a block crosses every height below it by one link |
| Finality.TwoJustifiedAtOneHeight | src/node/consensus.rs:1397-1431 | two justified blocks at one height make a third of the validators double voters |
| Finality.ConflictBlamesAThird | src/node/consensus.rs:1397-1431 | accountable safety: a justified block that does not build on a finalized one at or below its height makes a third of the validators offend within the height difference |
| Finality.HonestNeverOffends | src/node/vote_journal.rs:100-135 | a validator behind the journal never offends within 12 heights, or within 257 when its own targets only rise |
| Finality.OnlyFaultyAreUnsteady | src/node/vote_journal.rs:100-135 | if the honest validators' targets only rise, the second condition is the first |
| Finality.FewOffend | src/node/consensus.rs:1397-1431 | under either condition fewer than a third of the validators offend within the height difference |
| Finality.JustifiedBuildsOnFinalized | src/node/consensus.rs:1397-1431 | a justified block builds on a finalized one up to 12 heights below when fewer than a third are faulty, and up to 257 when fewer than a third are anything but honest with rising targets |
| FastFinality.ValidSnapshot | src/consensus/parlia/snapshot.rs:335-367 | along every valid branch a snapshot's target is a justified proper ancestor and its source genesis or a finalized block below the target |
| FastFinality.AttestationIsLink | src/node/evm/pre_execution.rs:568-731 | a verified attestation is a quorum of votes from its source height to its target |
| FastFinality.AttestedSnapshot | src/consensus/parlia/snapshot.rs:335-367 | applying a verified header keeps the snapshot sound, both in the full and in the target-only update |
| FastFinality.SourceIsJustified | src/node/evm/pre_execution.rs:796-811 | the source an attestation must name exists, is justified and lies on the branch |
| FastFinality.ComposedVoteIsWellFormed | src/node/vote_producer.rs:185-211 | a composed vote's source is below its target |
| FastFinality.EligibleVotersCount | src/node/consensus.rs:1412-1420 | the counted pool votes are as many different validators |
| FastFinality.ReportedIsFinalized | src/node/consensus.rs:1390-1442 | the block the engine reports lies on the header's branch and is genesis or finalized, on the early path and on the snapshot path |
| FastFinality.ReportsAgree | src/node/consensus.rs:1390-1442 | two reports of any two engines lie on one branch, up to 12 heights apart with fewer than a third faulty, up to 257 with fewer than a third anything but honest with rising targets |
| FinalityProgress.SnapshotIsExact | src/consensus/parlia/snapshot.rs:335-367 | a snapshot holds the source of the last direct attestation on its branch, or of the first one if none is direct, and the target of the last, for attestations with targets above genesis, as all valid ones have |
| FinalityProgress.SnapshotRises | src/consensus/parlia/snapshot.rs:335-367 | along a valid branch, with fewer than a third faulty, neither end of the vote range falls, and a direct attestation makes its source the snapshot's |
| FinalityProgress.DirectAttestationIsReported | src/node/consensus.rs:1390-1442 | on such a branch, once a header attests a block from its parent, it and every later header report the parent's height or more, whatever is pooled |
| FinalityProgress.ReportBuildsOnDirect | src/node/consensus.rs:1390-1442 | and what they report builds on that parent |
| FinalityProgress.ReportExactly | src/node/consensus.rs:1397-1433 | the report is the snapshot's target if it is one below the header and two thirds of the validators' votes from it are pooled, else the snapshot's source |
| FinalityProgress.ReportFallsExactly | src/node/consensus.rs:1403-1433 | on such a branch the reported height falls from a header to its child if and only if something is justified at the header, it reported from pooled votes, and the child carries no attestation |
| FinalityProgress.ReportCanFall | src/node/consensus.rs:1403-1433 | a branch on which it does |
| FinalityProgress.AttestableExactly | src/node/evm/pre_execution.rs:568-731 | on such a branch a header may carry the votes for an ancestor other than genesis if and only if it is the parent, or after Fermi one of the three blocks below, both have the same justified block, and the voters are no more than the validators and a quorum that cast the vote |
| FinalityProgress.TwoInARowFinalize | src/node/consensus.rs:1390-1442 | two valid headers in a row with the votes for their parents: the second one reports the first parent's height or more, and what it reports builds on that parent |
| FinalityBounds.SafeExactlyWithin12 | src/node/vote_journal.rs:15-16 | reports within a distance always agree if and only if the distance is at most 12 |
| FinalityBounds.SafeExactlyWithin257WhenRising | src/node/vote_journal.rs:13-14 | when fewer than a third are anything but honest with rising targets, if and only if the distance is at most 257 |
| NodeSafety.ProducersAreHonest | src/node/vote_producer.rs:60-236 | a validator that is not honest in the finality argument does not run the producer on complete lines, and one that is not honest with rising targets does not run it so with rising targets |
| NodeSafety.NodesAgree | src/node/consensus.rs:1390-1442 | the whole stack: if fewer than a third of the validators do anything but send votes of a producer run over valid heads, each begun on a complete line, any two blocks reported as finalized within 12 heights lie on one branch, and within 257 if fewer than a third do anything but that with rising targets |
| ProducerWitness.ProducerSendsAll | src/node/vote_producer.rs:60-236 | the gates hold nothing back: different heads whose votes the journal serves are all voted for after the warm-up |
| ProducerWitness.AnyHeadsOnTornLines | src/node/vote_producer.rs:60-236 | on torn lines the producer, with its warm-up heads, votes for any sequence of heads at all |
| NodeBounds.ProducersSafeExactlyWithin12 | src/node/consensus.rs:1390-1442 | for networks of producers, reports within a distance always agree if and only if the distance is at most 12 |
| NodeBounds.ProducersSafeExactlyWithin257 | src/node/consensus.rs:1390-1442 | when fewer than a third do anything but run the producer with rising targets, if and only if the distance is at most 257 |
| NodeBounds.TornLinesBreakFinality | src/node/vote_journal.rs:152-163 | without complete lines a lone producer, after any warm-up, has any two rival blocks at one height both reported |
| ReachBounds.OneReportExactlyUpTo255 | src/node/consensus.rs:1390-1442 | with fewer than a third not honest within a reach, reports at one height agree if and only if the reach is at most 255 |
| ReachBounds.ProducersReportOnceExactlyUpTo255 | src/node/consensus.rs:1390-1442 | the same with fewer than a third that do not run the producer within the reach |
| MinedBlockGuard.MinedBlockGuard.CheckAndRecord | src/shared.rs:576-589 | answers whether the pair was free and records it, moving the height to the front and evicting the least recently used one |
| MinedBlockGuard.MinedBlockGuard.Forget | src/shared.rs:596-603 | removes the parent from its height, and an unknown height changes nothing |
| MinedBlockGuard.UsedHeightIsRecent | src/shared.rs:559-565 | a height within reach 49 that was ever used is among the 100 most recent |
| MinedBlockGuard.BoundedClaim | src/shared.rs:576-589 | a claim on the bounded cache answers and ends as on the unbounded one |
| MinedBlockGuard.BoundedForget | src/shared.rs:596-603 | giving a slot back ends as on the unbounded one |
| GuardRuns.ClaimsAreExact | src/shared.rs:576-603 | in every interleaving a claim is answered as an unbounded set of pairs would answer it |
| GuardRuns.NoSlotIsSentTwice | src/node/miner/payload.rs:2435-2485 | at most one worker ever sends a block for a height and parent |
| GuardRuns.SentOnceExactlyUpTo49 | src/shared.rs:559-603 | this holds for all runs of a given reach if and only if the reach is at most 49 |
| GuardCalls.RefusedExactly | src/shared.rs:559-603 | over any calls at any heights, a claim is refused if and only if fewer than 100 other heights were used since its own and the parent was claimed there and not given back since the height was last forgotten |
| BodyCache.BodyCache.Cache | src/shared.rs:732-740 | both indexes record the block, each evicting on its own |
| BodyCache.BodyCache.BlockByNumber | src/shared.rs:754-765 | a hit promotes in both indexes; a number whose block is gone answers nothing |
| BodyCache.HitsAreLatest | src/shared.rs:731-765 | over every run a hit by number is the last block cached at that number and a hit by hash the last one with that hash |
| BodyCache.CachedBlockStays | src/shared.rs:295-309 | a cached block is still found by hash through the next 511 operations of any kind, and by number too while no other block took its number |
| BodyCache.FoundExactly | src/shared.rs:731-765 | a block is found by hash if and only if fewer than 512 other hashes were used since its own, and by number if and only if that holds for the number and for the hash cached last for it |
| Rlp.HeaderExact | src/node/primitives.rs:199-202 | the header decoder accepts exactly the canonical headers whose payload is present |
| Rlp.UintExact | src/node/primitives.rs:217-219 | the integer decoder accepts exactly the canonical encodings of 64-bit values |
| Rlp.VecExact | src/node/primitives.rs:209-210 | the list decoder accepts exactly the lists of valid elements |
| SidecarCodec.SidecarFraming | src/node/primitives.rs:161-195 | the two headers written from computed lengths frame the payload, and `length()` is the encoded size |
| SidecarCodec.SidecarComplete | src/node/primitives.rs:161-227 | decoding an encoding with any bytes after it gives the sidecar with version 0 and those bytes |
| SidecarCodec.SidecarExact | src/node/primitives.rs:197-227 | the decoder accepts exactly encodings, so no input passes whose inner or outer length differs from the bytes consumed |
| SidecarStream.EncodeInto | src/node/primitives.rs:161-180 | the encoder appends exactly the encoding to the output buffer |
| SidecarStream.DecodeFrom | src/node/primitives.rs:197-227 | the cursor-moving decoder gives the specified value or error, leaves the cursor on the rest, and after an error somewhere in its input |
| RlpTrees.SidecarIsTree | src/node/primitives.rs:161-180 | a sidecar's encoding is that of the tree of its fields, in order |
| BlockCodec.BackfillIsFree | src/node/primitives.rs:360-367 | the withdrawals backfill does not change the payload length, since the placeholder is one byte too |
| BlockCodec.RlpLengthExact | src/node/primitives.rs:317-326 | the length computed without the backfill is the size of the encoding made with it |
| BlockCodec.BodyLengthExact | src/node/primitives.rs:402-410 | the length of a body is the size of its encoding |
| BlockCodec.BodyExact | src/node/primitives.rs:412-425 | for every codec of transactions, headers and withdrawals, which byte strings decode to a body, including both spellings of an absent optional field |
| BlockCodec.BlockExact | src/node/primitives.rs:437-453 | the same for blocks |
| BlockCodec.BodyRoundTrip | src/node/primitives.rs:402-425 | decoding an encoded body gives its normal form: empty withdrawals when they are missing and sidecars are present, sidecar version 0 |
| BlockCodec.BlockRoundTrip | src/node/primitives.rs:427-453 | the same for blocks, with any bytes after them |
| BlockCodec.EncodeBlockInjective | src/node/primitives.rs:377-434 | two blocks have one encoding if and only if they have one normal form |
| BlockCodec.EncodeBodyInjective | src/node/primitives.rs:353-410 | two bodies have one encoding if and only if they have one normal form |
| RlpTrees.BodyIsTree | src/node/primitives.rs:353-410 | a body's encoding is that of its tree, with an empty list where withdrawals are missing before sidecars |
| RlpTrees.BlockIsTree | src/node/primitives.rs:377-434 | a block's encoding is that of its header followed by its body's fields |
| RlpTrees.NormalFormFields | src/node/primitives.rs:360-367 | what a body is read back as, field by field |
| Calendar.CivilSuccessor | src/rpc/mev.rs:191-203 | every result is a valid date and the next day's result is its successor under the leap-year rule |
| Calendar.CivilInvertsDayNumber | src/rpc/mev.rs:191-203 | counting days from years, months and leap days undoes the conversion, for negative day counts too |
| Calendar.DayNumberInvertsCivil | src/rpc/mev.rs:191-203 | every date is reached, by exactly its day number |
| Calendar.CivilOrder | src/rpc/mev.rs:191-203 | day counts and dates are ordered alike, so the conversion is injective |
| Rfc3339.EpochDate | src/rpc/mev.rs:191-203 | day 0 is 1970-01-01 |
| Rfc3339.FormatOrder | src/rpc/mev.rs:181-187 | string order is the order of the seconds whenever the years have equally many digits |
| Rfc3339.FormatInjective | src/rpc/mev.rs:181-187 | different seconds always print differently |
| Rfc3339.StringOrderEnds | src/rpc/mev.rs:181-187 | the first second of the year 10000 sorts below the last second of 9999 |
| Rfc3339.OrderedExactlyBefore10000 | src/rpc/mev.rs:181-187 | string order is time order on all seconds below a limit if and only if the limit is at most 253402300800 |
| Rfc3339.FormatLength | src/rpc/mev.rs:181-187 | the output has the standard's 20 characters if and only if the year is at most 9999 |
| Rfc3339.FormatFields | src/rpc/mev.rs:181-187 | the six fields and the six separators stand in their places |
| Rfc3339.ParseInvertsFormat | src/rpc/mev.rs:181-187 | reading the output back gives the seconds |
| Eip7702.Journal.ApplyAuthList | src/evm/handler.rs:82-166 | the loop's accounts are those of the entries applied one after another, the refund is 12500 for each refunded one; other transaction types change nothing |
| Eip7702.FinalAccount | src/evm/handler.rs:94-159 | an authority's nonce rises by its number of accepted entries, its code is the last accepted delegation, empty for address zero, or unchanged; balance and existence never change |
| Eip7702.UnchangedExactly | src/evm/handler.rs:112-134 | an account is unchanged exactly when none of its entries is accepted, which is always so for blacklisted and contract accounts |
| Eip7702.AcceptedExactly | src/evm/handler.rs:97-138 | an entry is accepted exactly when it is for this chain or any, its nonce is below 2^64 - 1, its signer is recovered, not blacklisted and no contract, and the nonce is the initial one plus the entries accepted before |
| Eip7702.OtherChainsChangeNothing | src/evm/handler.rs:95-99 | entries for other chains change no account and refund nothing |
| Eip7702.AcceptedNoncesRise | src/evm/handler.rs:134-158 | accepted nonces of one authority strictly rise, so no pair of authority and nonce is accepted twice |
| Eip7702.AuthoritiesAreIndependent | src/evm/handler.rs:93-159 | what happens to an authority depends on its own entries only |
| Eip7702.RefundExact | src/evm/handler.rs:140-165 | the refund counts the accepted entries minus the authorities that did not exist beforehand |
| GasLimit.MayFollowIsAccepted | src/node/consensus.rs:92-131 | the check accepts exactly limits in range that differ by less than the parent's share, with gas used within the limit |
| GasLimit.VerdictExactly | src/node/consensus.rs:92-185 | which check fails first for every header and parent, and that a header passes exactly when none does |
| GasLimit.ChainKeepsBounds | src/node/consensus.rs:160-185 | along every chain of accepted headers limits stay in range, gas used within them, numbers consecutive and timestamps strictly rising |
| GasLimit.LimitCompounds | src/node/consensus.rs:112-128 | over any mix of divisors the limit stays between the products of (d-1)/d and (d+1)/d |
| GasLimit.LimitCompoundsOnStretch | src/node/consensus.rs:112-128 | on a stretch of k headers under one divisor d the limit compounds within ((d-1)/d)^k and ((d+1)/d)^k |
| GasLimit.ReachableExactly | src/node/consensus.rs:112-128 | the limits reachable in k headers are exactly an interval, without gaps |
| GasLimit.AnyLimitIsReachable | src/node/consensus.rs:112-128 | any two limits in range are joined by as many steps as they are apart |
| GasLimit.ReachableByChain | src/node/consensus.rs:160-185 | each such path is a chain of accepted headers with different hashes |
| GasLimit.ChainReaches | src/node/consensus.rs:160-185 | and each chain of accepted headers is such a path |
| BidQuota.QuotaIsGuarded | src/rpc/mev.rs:299-320 | what reaches the quota builds the next height on the head, in turn, for a registered builder who is not revoked for bid blocks |
| BidQuota.ReachesQuotaExactly | src/rpc/mev.rs:655-742 | a request reaches the quota if and only if each check on its fields passes |
| BidQuota.HeadRefusals | src/rpc/mev.rs:299-320 | which head check is named in a refusal |
| BidQuota.PendingBids.Reserve | src/rpc/mev.rs:324-344 | the nested map after dropping old heights and adding the hash, and which of the three outcomes is answered |
| BidQuota.QuotaPerReset | src/rpc/mev.rs:324-344 | for every run at all, reservations at a height are at most the quota for each time the height was dropped, plus what is pending |
| BidQuota.QuotaPerResetIsTight | src/rpc/mev.rs:324-344 | for every quota and number of drops of the head there is a run that reaches this bound, so a head that drops does break the quota |
| BidQuota.QuotaHolds | src/rpc/mev.rs:655-742 | while the observed head never drops, a builder gets at most the quota at a height over the whole run and no hash twice |
| BidQuota.QuotaDecides | src/rpc/mev.rs:324-344 | over such runs an attempt is a duplicate exactly when its hash is reserved there, else one too many exactly when the quota is used up, and else succeeds |
| BidQuota.OnlyNextHeight | src/rpc/mev.rs:332-333 | after each attempt the map holds only the height after the head |
| SidecarStorage.BscStorage.WriteBlockBodies | src/node/storage.rs:26-85 | bodies are written up to a database error, which ends the call; then all sidecars in order if a store is there; a failed insertion is an error and leaves the store as it was |
| SidecarStorage.OtherEntriesStay | src/node/storage.rs:43-54 | a write leaves the entries of all other transactions alone |
| SidecarStorage.LastSidecarWins | src/node/storage.rs:43-54 | of several sidecars for one transaction the last is kept |
| SidecarStorage.OtherBodiesStay | src/node/storage.rs:31-39 | and it leaves the bodies of all other numbers alone |
| SidecarStorage.BatchesAreOneBatch | src/node/storage.rs:26-85 | batches written one after the other store what one batch of all of them would |
| SidecarStorage.SortInPlace | src/node/storage.rs:231-231 | the in-place sort gives the sequence the specification sorts to |
| SidecarStorage.SortSpec | src/node/storage.rs:228-231 | sorting keeps the members and orders strictly when the indexes differ |
| SidecarStorage.ReadSidecarsFromBlobStore | src/node/storage.rs:164-234 | the filter, the index lookup, the sort and the empty cases |
| SidecarStorage.ReadSpec | src/node/storage.rs:122-234 | for any subset in any order that the store returns, exactly its EIP-4844 entries for the block's blob transactions are read, in transaction order, and never an empty list |
| SidecarStorage.AnswerOrderIsIrrelevant | src/node/storage.rs:228-231 | two answers with the same entries read the same |
| SidecarStorage.ReadBackExactly | src/node/storage.rs:104-234 | for every store and order of its answer, a body is read back exactly when it is canonical and the store holds exactly its sidecars for its blob transactions |
| SidecarStorage.RoundTripExactly | src/node/storage.rs:26-159 | a body written in a batch is read back as it was if and only if it is canonical and the store has no EIP-4844 entry of another origin for its blob transactions |
| SidecarStorage.CompleteBodyRoundTrip | src/node/storage.rs:26-159 | a canonical body with a sidecar for each blob transaction is read back whatever the store held before |
| SidecarStorage.BatchesRoundTripExactly | src/node/storage.rs:26-159 | after any sequence of batches, a body that is the last one for its number is read back if and only if it is canonical and the store has no EIP-4844 entry of another origin for its blob transactions |
| SidecarStorage.NoStoreNoSidecars | src/node/storage.rs:135-141 | without a store, or when its query fails, no sidecars are read |
| SidecarStorage.EarlierEntryIsRead | src/node/storage.rs:87-95 | a canonical body without sidecars is read with sidecars when the store already holds data for its blob transaction |

## Left out

- Cryptography: BLS signing and aggregation, ECDSA recovery, Keccak and KZG proofs are taken as given.
- The vote pool, snapshots beyond their vote range, turn schedules, difficulty and seals.
- Changes of the validator set at epochs, so the finality results are about one set.
- The fork-choice engine's total-difficulty cache and its asynchronous calls.
- Pre-Plato headers and missing snapshots, for which the engine reports nothing.
- RPC, command line, metrics, hard-fork tables, chain specifications, JSON shapes and the `hex_quantity` formatter: no deep property.
- Deadlines for votes and bids: their outcome is an input (`late`) or not modelled.
- Blob-gas and base-fee header checks that follow the gas-limit check.
- Bid simulation, and everything after a bid is admitted.
- VoteJournal.VoteJournal.WriteVote: does not model the memory-only mode, nor the best-effort directory sync of a new file.
- VoteProducer.VoteProducer.MaybeProduceAndBroadcastForHead: one call is one step; the per-snapshot cache of vote addresses is an input that says whether the key is a validator's. Overlapping calls are covered at the journal, whose atomic writes are the steps of its runs.
- ProducerRuns.ProducerIsHonest: asks that targets stay within the reach and that sent votes began on complete lines, which the producer itself does not enforce; `ReachBounds` and `NodeBounds.TornLinesBreakFinality` show that finality needs both.
- BlockCodec.BodyExact: the inner structure of transactions, headers and withdrawals is not modelled; which items their decoders accept is a parameter over which the result is universal, and an accepted item is taken to be its own encoding.
- BlockCodec.BlockExact: the same.
- BlockCodec.BlockRoundTrip: the derived encoders and decoders of blocks are functions, not buffer-moving methods.
- SidecarStream.DecodeFrom: does not say how far the cursor moved before an error.
- SidecarStorage.SortInPlace: is an insertion sort; the library's unstable sort may order equal indexes differently, which cannot occur for different transactions.
- SidecarStorage.RoundTripExactly: asks that the store answers completely, that a transaction hash determines its blobs, that the transactions of the body have different hashes, and that no later body of the batch has the same number; removal of bodies and eviction from the blob store are not modelled.
- SidecarStorage.BatchesRoundTripExactly: asks the same, for all batches together.
- Eip7702.FinalAccount: the account-warming side of loading an authority is not modelled.
