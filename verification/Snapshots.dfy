/** What headers and snapshots record about votes: the attestation a header carries, the
vote range its snapshot keeps, the vote a producer composes and the block the fork-choice
engine reports as finalized. */
module Snapshots {
  import opened Chain

  /** How many ancestors an attestation may reach back to after Fermi. */
  const K_ANCESTOR_GENERATION_DEPTH: nat := 3

  const NO_VOTE := VoteData(0, Zero, 0, Zero)

  /** Two thirds of the validators, rounded up. */
  function Quorum(size: nat): nat {
    (size * 2 + 2) / 3
  }

  /** The vote range after applying a header to its parent's snapshot. */
  function UpdateAttestation(current: VoteData, header: Block): VoteData
    requires header.Child?
  {
    match header.attestation
    case None => current
    case Some(att) =>
      var data := att.data;
      if !header.fermi && (data.targetNumber + 1 != Number(header) || data.targetHash != Of(header.parent)) then
        current
      else if current != NO_VOTE && data.sourceNumber + 1 != data.targetNumber then
        current.(targetNumber := data.targetNumber, targetHash := data.targetHash)
      else
        data
  }

  function SnapshotVote(b: Block): VoteData {
    match b
    case Genesis => NO_VOTE
    case Child(parent, _, _, _) => UpdateAttestation(SnapshotVote(parent), b)
  }

  /** The block an attestation must name as its source. */
  function JustifiedHeader(snap: VoteData): Option<Block> {
    if snap.sourceHash == Zero && snap.targetHash == Zero then Some(Genesis)
    else if snap.targetHash == Zero then None
    else Some(snap.targetHash.block)
  }

  /** The vote the producer composes for a canonical head. */
  function ComposeVote(head: Block): VoteData {
    var snap := SnapshotVote(head);
    if snap.targetHash == Zero then
      VoteData(0, Of(Genesis), Number(head), Of(head))
    else
      VoteData(snap.targetNumber, snap.targetHash, Number(head), Of(head))
  }

  // ----- the network -----

  /** The votes every validator of a fixed set has signed and sent, oldest first. */
  datatype Network = Network(size: nat, cast: map<nat, seq<VoteData>>)

  predicate HasCast(w: Network, v: nat, data: VoteData) {
    v in w.cast && data in w.cast[v]
  }

  /** The target is the block itself or one of its ancestors, at most `depth` blocks in all. */
  predicate TargetWithin(b: Block, depth: nat, data: VoteData) {
    && depth > 0
    && (|| (data.targetNumber == Number(b) && data.targetHash == Of(b))
        || (b.Child? && TargetWithin(b.parent, depth - 1, data)))
  }

  /** The attestation check of block execution. Genesis has no parent snapshot, so it is never
      a target. */
  ghost predicate AttestationVerified(w: Network, b: Block)
    requires b.Child?
  {
    b.attestation.Some? ==>
      var att := b.attestation.value;
      var counted := set v | v in att.voters && v < w.size;
      && TargetWithin(b.parent, if b.fermi then K_ANCESTOR_GENERATION_DEPTH else 1, att.data)
      && att.data.targetNumber > 0
      && JustifiedHeader(SnapshotVote(b.parent)).Some?
      && (var source := JustifiedHeader(SnapshotVote(b.parent)).value;
          att.data.sourceNumber == Number(source) && att.data.sourceHash == Of(source))
      && |att.voters| <= w.size
      && Quorum(w.size) <= |counted|
      && forall v :: v in counted ==> HasCast(w, v, att.data)
  }

  ghost predicate Valid(w: Network, b: Block) {
    b.Child? ==> Valid(w, b.parent) && AttestationVerified(w, b)
  }

  // ----- finality as the fork-choice engine sees it -----

  datatype Envelope = Envelope(voter: nat, data: VoteData)

  predicate Eligible(e: Envelope, source: nat, target: nat) {
    e.data.sourceNumber == source && e.data.targetNumber == target
  }

  function EligibleVotes(pool: seq<Envelope>, source: nat, target: nat): nat {
    if |pool| == 0 then 0
    else
      EligibleVotes(pool[..|pool| - 1], source, target) +
      (if Eligible(pool[|pool| - 1], source, target) then 1 else 0)
  }

  /** `pool` holds the pooled votes whose target hash is the header's. */
  function GetFinalized(size: nat, header: Block, pool: seq<Envelope>): (nat, Hash) {
    var snap := SnapshotVote(header);
    if && Number(header) > 0
       && Number(header) - 1 == snap.targetNumber
       && size > 0
       && EligibleVotes(pool, snap.targetNumber, Number(header)) >= Quorum(size)
    then
      (snap.targetNumber, snap.targetHash)
    else
      (snap.sourceNumber, snap.sourceHash)
  }

  /** Every pooled vote was cast for this header, at most one by each validator. */
  ghost predicate PoolOf(w: Network, header: Block, pool: seq<Envelope>) {
    && (forall i :: 0 <= i < |pool| ==>
          pool[i].voter < w.size && HasCast(w, pool[i].voter, pool[i].data) && pool[i].data.targetHash == Of(header))
    && (forall i, j :: 0 <= i < j < |pool| ==> pool[i].voter != pool[j].voter)
  }

  /** The engine reports `f` as finalized for a valid header. */
  ghost predicate Reports(w: Network, header: Block, pool: seq<Envelope>, f: Block) {
    && Valid(w, header)
    && PoolOf(w, header, pool)
    && GetFinalized(w.size, header, pool) == (Number(f), Of(f))
  }
}
