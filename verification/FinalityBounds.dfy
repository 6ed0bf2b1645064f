/** How far apart two finalized blocks may be for the journal to keep them on one branch:
exactly 12 heights, or 257 when targets only rise. */
module FinalityBounds {
  import opened Chain
  import opened JournalHistory
  import opened JournalRuns
  import opened JournalBounds
  import opened Snapshots
  import opened Finality
  import opened FastFinality

  ghost predicate SafeWithin(distance: nat) {
    forall w, h1, p1, f1, h2, p2, f2 ::
      && FewFaulty(w) && Reports(w, h1, p1, f1) && Reports(w, h2, p2, f2)
      && Number(f1) <= Number(f2) <= Number(f1) + distance
      ==> Ancestor(f1, f2)
  }

  ghost predicate SafeWithinWhenRising(distance: nat) {
    forall w, h1, p1, f1, h2, p2, f2 ::
      && FewUnsteady(w) && Reports(w, h1, p1, f1) && Reports(w, h2, p2, f2)
      && Number(f1) <= Number(f2) <= Number(f1) + distance
      ==> Ancestor(f1, f2)
  }

  // ----- a lone validator that finalizes two branches -----

  /** A block on a branch that carries no attestation. */
  predicate Bare(b: Block) {
    b.Child? ==> b.attestation.None? && Bare(b.parent)
  }

  lemma {:induction false} BareBranch(w: Network, b: Block)
    requires Bare(b)
    ensures Valid(w, b) && SnapshotVote(b) == NO_VOTE
  {
    if b.Child? {
      BareBranch(w, b.parent);
    }
  }

  /** The vote that justifies a block from genesis. */
  function FirstVote(b: Block): VoteData {
    VoteData(0, Of(Genesis), Number(b), Of(b))
  }

  /** The child that carries the attestation for it. */
  function AttestedBy(b: Block, voters: set<nat>): Block {
    Child(b, 0, false, Some(Attestation(voters, FirstVote(b))))
  }

  /** The vote that finalizes the block. */
  function NextVote(b: Block, voters: set<nat>): VoteData {
    VoteData(Number(b), Of(b), Number(b) + 1, Of(AttestedBy(b, voters)))
  }

  lemma AttestedSnapshotVote(b: Block, voters: set<nat>)
    requires b.Child? && Bare(b)
    ensures ComposeVote(b) == FirstVote(b)
    ensures SnapshotVote(AttestedBy(b, voters)) == FirstVote(b)
    ensures ComposeVote(AttestedBy(b, voters)) == NextVote(b, voters)
  {
    BareBranch(Network(0, map[]), b);
  }

  lemma AttestedIsValid(w: Network, b: Block, voters: set<nat>)
    requires b.Child? && Bare(b)
    requires voters <= Validators(w.size) && Quorum(w.size) <= |voters|
    requires forall v :: v in voters ==> HasCast(w, v, FirstVote(b))
    ensures Valid(w, b) && Valid(w, AttestedBy(b, voters))
  {
    BareBranch(w, b);
    SubsetCount(voters, Validators(w.size));
    assert (set v | v in voters && v < w.size) == voters;
    assert AttestationVerified(w, AttestedBy(b, voters));
  }

  function Envelopes(voters: seq<nat>, data: VoteData): seq<Envelope> {
    seq(|voters|, i requires 0 <= i < |voters| => Envelope(voters[i], data))
  }

  lemma {:induction false} AllEligible(voters: seq<nat>, data: VoteData)
    ensures EligibleVotes(Envelopes(voters, data), data.sourceNumber, data.targetNumber) == |voters|
  {
    if |voters| > 0 {
      AllEligible(voters[..|voters| - 1], data);
      assert Envelopes(voters, data)[..|voters| - 1] == Envelopes(voters[..|voters| - 1], data);
    }
  }

  /** A quorum for the block and a quorum for its child let the engine report the block. */
  lemma BranchIsReported(w: Network, b: Block, voters: set<nat>, pool: seq<nat>)
    requires b.Child? && Bare(b) && w.size > 0
    requires voters <= Validators(w.size) && Quorum(w.size) <= |voters|
    requires forall v :: v in voters ==> HasCast(w, v, FirstVote(b))
    requires Quorum(w.size) <= |pool| && forall i, j :: 0 <= i < j < |pool| ==> pool[i] != pool[j]
    requires forall i :: 0 <= i < |pool| ==> pool[i] < w.size && HasCast(w, pool[i], NextVote(b, voters))
    ensures Reports(w, AttestedBy(b, voters), Envelopes(pool, NextVote(b, voters)), b)
  {
    AttestedSnapshotVote(b, voters);
    AttestedIsValid(w, b, voters);
    AllEligible(pool, NextVote(b, voters));
    hide Valid, SnapshotVote, EligibleVotes, HasCast;
  }

  // ----- a lone validator on two branches -----

  function Attesting(b: Block): Block {
    AttestedBy(b, {0})
  }

  function SecondVote(b: Block): VoteData {
    NextVote(b, {0})
  }

  /** Both votes are composed by the producer, and with them the engine reports `b`. */
  lemma BranchReports(w: Network, b: Block)
    requires w.size == 1 && b.Child? && Bare(b)
    requires HasCast(w, 0, FirstVote(b)) && HasCast(w, 0, SecondVote(b))
    ensures FirstVote(b) == ComposeVote(b) && Valid(w, b)
    ensures SecondVote(b) == ComposeVote(Attesting(b)) && Valid(w, Attesting(b))
    ensures Reports(w, Attesting(b), [Envelope(0, SecondVote(b))], b)
  {
    hide Valid, Reports, ComposeVote, FirstVote, NextVote, AttestedBy, HasCast;
    AttestedSnapshotVote(b, {0});
    AttestedIsValid(w, b, {0});
    BranchIsReported(w, b, {0}, [0]);
    assert Envelopes([0], SecondVote(b)) == [Envelope(0, SecondVote(b))];
  }

  /** A validator that casts both votes of two plain branches and nothing else. */
  ghost predicate TwoBranches(votes: seq<VoteData>, a: Block, b: Block) {
    && a.Child? && Bare(a) && b.Child? && Bare(b)
    && (forall v :: v in votes <==> v in [FirstVote(a), SecondVote(a), FirstVote(b), SecondVote(b)])
  }

  /** If its history is consistent it is honest, and the engine reports both branches. */
  lemma LoneValidatorReportsBoth(votes: seq<VoteData>, w: Network, a: Block, b: Block)
    requires w == Network(1, map[0 := votes])
    requires TwoBranches(votes, a, b) && Consistent(votes, REACH)
    ensures FewFaulty(w) && (TargetsRise(w, 0) ==> FewUnsteady(w))
    ensures Reports(w, Attesting(a), [Envelope(0, SecondVote(a))], a)
    ensures Reports(w, Attesting(b), [Envelope(0, SecondVote(b))], b)
  {
    hide Run, Legal, AllStartedClean, Reports, FirstVote, SecondVote, Bare, Valid, ComposeVote, Consistent, StoreAll;
    var four := [FirstVote(a), SecondVote(a), FirstVote(b), SecondVote(b)];
    assert four[0] in votes && four[1] in votes && four[2] in votes && four[3] in votes;
    BranchReports(w, a);
    BranchReports(w, b);
    assert Honest(w, 0) by {
      ConsistentHistoryIsARun(votes);
    }
    hide TargetsRise;
    assert Faulty(w) == {};
    assert TargetsRise(w, 0) ==> Unsteady(w) == {};
  }

  lemma HighFirstIsConsistent(a: Block, b: Block)
    requires Number(a) == 1 && Number(b) == 14
    ensures Consistent([FirstVote(b), SecondVote(b), FirstVote(a), SecondVote(a)], REACH)
  {
  }

  lemma LowFirstIsConsistent(a: Block, b: Block)
    requires Number(a) == 1 && Number(b) == 259
    ensures Consistent([FirstVote(a), SecondVote(a), FirstVote(b), SecondVote(b)], REACH)
    ensures TargetsRise(Network(1, map[0 := [FirstVote(a), SecondVote(a), FirstVote(b), SecondVote(b)]]), 0)
  {
  }

  /** Signing the higher branch first and the lower one, 13 heights below, afterwards. */
  lemma NotSafeWithin13(distance: nat, a: Block, b: Block)
    requires Bare(a) && Bare(b) && Number(a) == 1 && Number(b) == 14 && !Ancestor(a, b)
    requires distance >= 13
    ensures !SafeWithin(distance)
  {
    hide FirstVote, SecondVote, Bare, Attesting, Consistent, Reports, FewFaulty, Ancestor;
    HighFirstIsConsistent(a, b);
    var votes := [FirstVote(b), SecondVote(b), FirstVote(a), SecondVote(a)];
    LoneValidatorReportsBoth(votes, Network(1, map[0 := votes]), a, b);
  }

  /** Signing the lower branch first and the higher one, 258 heights above, afterwards. */
  lemma NotSafeWithin258WhenRising(distance: nat, a: Block, b: Block)
    requires Bare(a) && Bare(b) && Number(a) == 1 && Number(b) == 259 && !Ancestor(a, b)
    requires distance >= 258
    ensures !SafeWithinWhenRising(distance)
  {
    hide FirstVote, SecondVote, Bare, Attesting, Consistent, Reports, FewFaulty, FewUnsteady, TargetsRise, Ancestor;
    LowFirstIsConsistent(a, b);
    var votes := [FirstVote(a), SecondVote(a), FirstVote(b), SecondVote(b)];
    LoneValidatorReportsBoth(votes, Network(1, map[0 := votes]), a, b);
  }

  /** A bare branch on top of a block. */
  function Extend(b: Block, blocks: nat): Block {
    if blocks == 0 then b else Child(Extend(b, blocks - 1), 0, false, None)
  }

  lemma {:induction false} ExtendFacts(b: Block, blocks: nat)
    ensures Number(Extend(b, blocks)) == Number(b) + blocks
    ensures Bare(b) ==> Bare(Extend(b, blocks))
    ensures Ancestor(b, Extend(b, blocks))
  {
    if blocks > 0 {
      ExtendFacts(b, blocks - 1);
    }
  }

  /** Bare branches of any height that part at genesis. */
  lemma BareRivals(height: nat, salt: nat) returns (a: Block, b: Block)
    requires height > 0 && salt > 0
    ensures Bare(a) && Bare(b) && Number(a) == 1 && Number(b) == height && !Ancestor(a, b)
  {
    a := Child(Genesis, salt, false, None);
    var first := Child(Genesis, 0, false, None);
    b := Extend(first, height - 1);
    ExtendFacts(first, height - 1);
    if Ancestor(a, b) {
      AncestorsAreLinear(a, first, b);
      AncestorNumber(a, first);
    }
  }

  /** Twelve heights are as far as the forward window protects. */
  lemma SafeExactlyWithin12(distance: nat)
    ensures SafeWithin(distance) <==> distance <= 12
  {
    if distance <= 12 {
      forall w, h1, p1, f1, h2, p2, f2 |
        && FewFaulty(w) && Reports(w, h1, p1, f1) && Reports(w, h2, p2, f2)
        && Number(f1) <= Number(f2) <= Number(f1) + distance
        ensures Ancestor(f1, f2)
      {
        ReportsAgree(w, h1, p1, f1, h2, p2, f2);
      }
    } else {
      var a, b := BareRivals(14, 1);
      NotSafeWithin13(distance, a, b);
    }
  }

  /** With rising targets the backward window protects 257 heights. */
  lemma SafeExactlyWithin257WhenRising(distance: nat)
    ensures SafeWithinWhenRising(distance) <==> distance <= 257
  {
    if distance <= 257 {
      forall w, h1, p1, f1, h2, p2, f2 |
        && FewUnsteady(w) && Reports(w, h1, p1, f1) && Reports(w, h2, p2, f2)
        && Number(f1) <= Number(f2) <= Number(f1) + distance
        ensures Ancestor(f1, f2)
      {
        ReportsAgree(w, h1, p1, f1, h2, p2, f2);
      }
    } else {
      var a, b := BareRivals(259, 1);
      NotSafeWithin258WhenRising(distance, a, b);
    }
  }
}
