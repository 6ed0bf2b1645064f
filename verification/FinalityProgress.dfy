/** What snapshots and reports amount to along a branch: exactly which attestations they stem
from, that direct attestations are reported, and when a report falls. */
module FinalityProgress {
  import opened Chain
  import opened Snapshots
  import opened Finality
  import opened FastFinality
  import opened FinalityBounds

  // ----- which attestations a snapshot keeps -----

  /** Before Fermi an attestation counts only if it targets the parent. */
  predicate Counts(b: Block) {
    b.Child? && b.attestation.Some? && (b.fermi || TargetWithin(b.parent, 1, b.attestation.value.data))
  }

  /** The attestations of a branch that count, oldest first. */
  function Attested(b: Block): seq<VoteData> {
    match b
    case Genesis => []
    case Child(parent, _, _, _) => Attested(parent) + (if Counts(b) then [b.attestation.value.data] else [])
  }

  predicate Direct(data: VoteData) {
    data.sourceNumber + 1 == data.targetNumber
  }

  /** The last direct attestation, or the first one if none is direct. */
  ghost predicate GivesSource(xs: seq<VoteData>, k: nat) {
    && k < |xs|
    && (forall j :: k < j < |xs| ==> !Direct(xs[j]))
    && (k == 0 || Direct(xs[k]))
  }

  ghost predicate HasTargets(xs: seq<VoteData>) {
    forall i :: 0 <= i < |xs| ==> xs[i].targetNumber > 0
  }

  /** A snapshot holds the source of the last direct attestation on its branch, or of the first
      attestation if none is direct, and the target of the last attestation. */
  lemma {:induction false} SnapshotIsExact(b: Block) returns (k: nat)
    requires HasTargets(Attested(b))
    ensures Attested(b) == [] ==> SnapshotVote(b) == NO_VOTE
    ensures Attested(b) != [] ==>
              var xs := Attested(b);
              var last := xs[|xs| - 1];
              && GivesSource(xs, k)
              && SnapshotVote(b) == VoteData(xs[k].sourceNumber, xs[k].sourceHash, last.targetNumber, last.targetHash)
  {
    k := 0;
    if b.Child? {
      var before, all := Attested(b.parent), Attested(b);
      assert forall i :: 0 <= i < |before| ==> all[i] == before[i];
      k := SnapshotIsExact(b.parent);
      CountedUpdate(b);
      if !Counts(b) {
        assert all == before;
      } else {
        var data := b.attestation.value.data;
        assert all == before + [data];
        if before == [] || Direct(data) {
          k := |before|;
        } else {
          assert before[|before| - 1].targetNumber > 0;
          assert forall j :: k < j < |all| ==> if j < |before| then all[j] == before[j] else all[j] == data;
        }
      }
    }
  }

  lemma CountedUpdate(b: Block)
    requires b.Child?
    ensures var before := SnapshotVote(b.parent);
            SnapshotVote(b) ==
            if !Counts(b) then before
            else
              var data := b.attestation.value.data;
              if before == NO_VOTE || Direct(data) then data
              else VoteData(before.sourceNumber, before.sourceHash, data.targetNumber, data.targetHash)
  {
    hide SnapshotVote;
    SnapshotStep(b);
    if b.attestation.Some? {
      OnlyItself(b.parent, b.attestation.value.data);
    }
  }

  lemma OnlyItself(b: Block, data: VoteData)
    ensures TargetWithin(b, 1, data) <==> data.targetNumber == Number(b) && data.targetHash == Of(b)
  {
    if b.Child? {
      assert !TargetWithin(b.parent, 0, data);
    }
  }

  lemma SnapshotStep(b: Block)
    requires b.Child?
    ensures SnapshotVote(b) == UpdateAttestation(SnapshotVote(b.parent), b)
  {
  }

  /** On a valid branch every attestation counts. */
  lemma {:induction false} ValidAttestationsCount(w: Network, b: Block)
    requires Valid(w, b)
    ensures b.Child? && b.attestation.Some? ==> Counts(b)
    ensures HasTargets(Attested(b))
  {
    if b.Child? {
      ValidAttestationsCount(w, b.parent);
    }
  }

  // ----- progress -----

  /** Along a valid branch neither end of the snapshot's vote range falls, and a direct
      attestation makes its source the snapshot's. */
  lemma SnapshotRises(w: Network, b: Block)
    requires FewFaulty(w) && Valid(w, b) && b.Child?
    ensures SnapshotVote(b.parent).sourceNumber <= SnapshotVote(b).sourceNumber
    ensures SnapshotVote(b.parent).targetNumber <= SnapshotVote(b).targetNumber
    ensures b.attestation.Some? ==>
              var data := b.attestation.value.data;
              && data.sourceNumber < data.targetNumber == SnapshotVote(b).targetNumber
              && (Direct(data) ==> SnapshotVote(b).sourceNumber == data.sourceNumber)
  {
    hide SnapshotVote, FewFaulty, ComposeVote, Justified, Finalized;
    var before := SnapshotVote(b.parent);
    ValidSnapshot(w, b.parent);
    ValidAttestationsCount(w, b);
    CountedUpdate(b);
    if b.attestation.Some? {
      var h := AttestedVoteIsComposed(w, b);
      ValidSnapshot(w, h);
      ComposedVoteIsWellFormed(w, h);
      assert b.attestation.value.data.sourceNumber == before.targetNumber;
    }
  }

  lemma {:induction false} ValidBelow(w: Network, a: Block, b: Block)
    requires Ancestor(a, b) && Valid(w, b)
    ensures Valid(w, a)
  {
    if a != b {
      ValidBelow(w, a, b.parent);
    }
  }

  lemma {:induction false} SourceNeverFalls(w: Network, a: Block, b: Block)
    requires FewFaulty(w) && Valid(w, b) && Ancestor(a, b)
    ensures SnapshotVote(a).sourceNumber <= SnapshotVote(b).sourceNumber
  {
    if a != b {
      hide SnapshotVote, FewFaulty;
      SourceNeverFalls(w, a, b.parent);
      SnapshotRises(w, b);
    }
  }

  lemma ReportIsAtLeastSource(w: Network, h: Block, pool: seq<Envelope>)
    requires FewFaulty(w) && Valid(w, h)
    ensures GetFinalized(w.size, h, pool).0 >= SnapshotVote(h).sourceNumber
  {
    ValidSnapshot(w, h);
  }

  /** Once a header attests a block from its parent, that header and every later one on the
      branch report the parent or a block above it, whatever votes are pooled. */
  lemma DirectAttestationIsReported(w: Network, a: Block, h: Block, pool: seq<Envelope>)
    requires FewFaulty(w) && Valid(w, h) && Ancestor(a, h)
    requires a.Child? && a.attestation.Some? && Direct(a.attestation.value.data)
    ensures GetFinalized(w.size, h, pool).0 >= a.attestation.value.data.sourceNumber
  {
    hide GetFinalized, SnapshotVote, FewFaulty;
    ValidBelow(w, a, h);
    SnapshotRises(w, a);
    SourceNeverFalls(w, a, h);
    ReportIsAtLeastSource(w, h, pool);
  }

  /** And what they report builds on it. */
  lemma ReportBuildsOnDirect(w: Network, a: Block, h: Block, pool: seq<Envelope>, f: Block)
    requires FewFaulty(w) && Reports(w, h, pool, f) && Ancestor(a, h)
    requires a.Child? && a.attestation.Some? && Direct(a.attestation.value.data)
    ensures a.attestation.value.data.sourceHash.Of? && Ancestor(a.attestation.value.data.sourceHash.block, f)
  {
    hide FewFaulty, SnapshotVote;
    DirectAttestationIsReported(w, a, h, pool);
    ReportedIsFinalized(w, h, pool, f);
    ValidBelow(w, a, h);
    ValidSnapshot(w, a.parent);
    SourceIsJustified(w, a.parent);
    var s := JustifiedHeader(SnapshotVote(a.parent)).value;
    assert a.attestation.value.data.sourceHash == Of(s) && a.attestation.value.data.sourceNumber == Number(s);
    AncestorTransitive(s, a.parent, a);
    AncestorTransitive(s, a, h);
    AncestorsAreLinear(s, f, h);
  }

  // ----- when a report falls -----

  /** The pooled votes finalize the parent before a header attests them. */
  ghost predicate ReportsEarly(size: nat, h: Block, pool: seq<Envelope>) {
    && size > 0 && Number(h) == SnapshotVote(h).targetNumber + 1
    && 3 * |VotesFrom(pool, SnapshotVote(h).targetNumber, Number(h))| >= 2 * size
  }

  /** Which pooled votes go from one height to the other. */
  ghost function VotesFrom(pool: seq<Envelope>, source: nat, target: nat): set<int> {
    set i | 0 <= i < |pool| && pool[i].data.sourceNumber == source && pool[i].data.targetNumber == target
  }

  lemma {:induction false} EligibleVotesCount(pool: seq<Envelope>, source: nat, target: nat)
    ensures EligibleVotes(pool, source, target) == |VotesFrom(pool, source, target)|
  {
    if |pool| == 0 {
      assert VotesFrom(pool, source, target) == {};
    } else {
      var n := |pool| - 1;
      EligibleVotesCount(pool[..n], source, target);
      var before := VotesFrom(pool[..n], source, target);
      assert VotesFrom(pool, source, target) == before + (if Eligible(pool[n], source, target) then {n} else {});
    }
  }

  /** A quorum is the least number that is two thirds of the validators. */
  lemma QuorumIsTwoThirds(size: nat, votes: nat)
    ensures votes >= Quorum(size) <==> 3 * votes >= 2 * size
  {
  }

  lemma ReportExactly(size: nat, h: Block, pool: seq<Envelope>)
    ensures GetFinalized(size, h, pool) ==
            (var snap := SnapshotVote(h);
             if ReportsEarly(size, h, pool) then (snap.targetNumber, snap.targetHash)
             else (snap.sourceNumber, snap.sourceHash))
  {
    hide SnapshotVote, EligibleVotes, VotesFrom;
    EligibleVotesCount(pool, SnapshotVote(h).targetNumber, Number(h));
    QuorumIsTwoThirds(size, EligibleVotes(pool, SnapshotVote(h).targetNumber, Number(h)));
  }

  /** From a header to its child the reported height falls exactly when the header reported
      early and the child carries no attestation: pooled votes that no header takes up. */
  lemma ReportFallsExactly(w: Network, b: Block, below: seq<Envelope>, pool: seq<Envelope>)
    requires FewFaulty(w) && Valid(w, b) && b.Child?
    ensures GetFinalized(w.size, b, pool).0 < GetFinalized(w.size, b.parent, below).0 <==>
            ReportsEarly(w.size, b.parent, below) && b.attestation.None? && SnapshotVote(b.parent) != NO_VOTE
  {
    hide EligibleVotes, FewFaulty, GetFinalized;
    var p := b.parent;
    ValidSnapshot(w, p);
    ValidSnapshot(w, b);
    SnapshotRises(w, b);
    ReportExactly(w.size, p, below);
    ReportExactly(w.size, b, pool);
    ReportIsAtLeastSource(w, b, pool);
    if ReportsEarly(w.size, p, below) && b.attestation.Some? && SnapshotVote(p) != NO_VOTE {
      var data := b.attestation.value.data;
      TargetWithinIsAncestor(p, if b.fermi then K_ANCESTOR_GENERATION_DEPTH else 1, data);
      AncestorNumber(data.targetHash.block, p);
      assert data.sourceNumber == SnapshotVote(p).targetNumber;
    }
  }

  /** A lone validator's block is reported early and then no longer. */
  lemma ReportCanFall(b: Block)
    requires b.Child? && Bare(b)
    ensures var w := Network(1, map[0 := [FirstVote(b), SecondVote(b)]]);
            var next := Child(Attesting(b), 0, false, None);
            && Valid(w, next)
            && GetFinalized(1, Attesting(b), [Envelope(0, SecondVote(b))]) == (Number(b), Of(b))
            && GetFinalized(1, next, []) == (0, Of(Genesis))
  {
    var w := Network(1, map[0 := [FirstVote(b), SecondVote(b)]]);
    assert w.cast[0][0] == FirstVote(b) && w.cast[0][1] == SecondVote(b);
    BranchReports(w, b);
    AttestedSnapshotVote(b, {0});
  }

  // ----- attesting a head -----

  lemma {:induction false} TargetWithinExactly(a: Block, h: Block, depth: nat)
    requires Ancestor(a, h)
    ensures TargetWithin(h, depth, ComposeVote(a)) <==> Number(h) < Number(a) + depth
  {
    AncestorNumber(a, h);
    if a != h && depth > 0 {
      TargetWithinExactly(a, h.parent, depth - 1);
      AncestorNumber(a, h.parent);
    }
  }

  /** The source a vote for `a` names. */
  lemma ComposedSource(w: Network, a: Block)
    requires SnapshotOk(w, a)
    ensures JustifiedHeader(SnapshotVote(a)).Some?
    ensures var s := JustifiedHeader(SnapshotVote(a)).value;
            ComposeVote(a).sourceNumber == Number(s) && ComposeVote(a).sourceHash == Of(s)
  {
  }

  /** A header on a valid branch may carry the votes for an ancestor exactly when the ancestor is
      its parent, or after Fermi one of the three blocks below it, no other block was justified
      in between, and the voters are a quorum that cast the vote. */
  lemma AttestableExactly(w: Network, a: Block, h: Block, salt: nat, fermi: bool, voters: set<nat>)
    requires FewFaulty(w) && Valid(w, h) && Ancestor(a, h) && a.Child?
    ensures var counted := set v | v in voters && v < w.size;
            Valid(w, Child(h, salt, fermi, Some(Attestation(voters, ComposeVote(a))))) <==>
            && Number(h) < Number(a) + (if fermi then 3 else 1)
            && JustifiedHeader(SnapshotVote(a)) == JustifiedHeader(SnapshotVote(h))
            && |voters| <= w.size && 3 * |counted| >= 2 * w.size
            && forall v :: v in counted ==> HasCast(w, v, ComposeVote(a))
  {
    hide ComposeVote, SnapshotVote, TargetWithin, FewFaulty, JustifiedHeader;
    ValidBelow(w, a, h);
    ValidSnapshot(w, a);
    ValidSnapshot(w, h);
    ComposedSource(w, a);
    ComposedSource(w, h);
    ComposedTarget(a);
    TargetWithinExactly(a, h, if fermi then 3 else 1);
    QuorumIsTwoThirds(w.size, |set v | v in voters && v < w.size|);
    var c := Child(h, salt, fermi, Some(Attestation(voters, ComposeVote(a))));
    assert Valid(w, c) <==> AttestationVerified(w, c);
  }

  lemma ComposedTarget(a: Block)
    ensures ComposeVote(a).targetNumber == Number(a) && ComposeVote(a).targetHash == Of(a)
  {
  }

  /** Two headers in a row that carry a quorum for their parents finalize the first parent: its
      height or more is reported, and what is reported builds on it. */
  lemma TwoInARowFinalize(w: Network, h: Block, c: Block, d: Block, pool: seq<Envelope>)
    requires FewFaulty(w) && Valid(w, d) && h.Child?
    requires c.Child? && c.parent == h && c.attestation.Some? && c.attestation.value.data == ComposeVote(h)
    requires d.Child? && d.parent == c && d.attestation.Some? && d.attestation.value.data == ComposeVote(c)
    ensures GetFinalized(w.size, d, pool).0 >= Number(h)
    ensures forall f :: Reports(w, d, pool, f) ==> Ancestor(h, f)
  {
    hide GetFinalized, FewFaulty, JustifiedHeader;
    assert Valid(w, c);
    SnapshotRises(w, c);
    ComposedTarget(h);
    ComposedTarget(c);
    ValidSnapshot(w, c);
    CountedUpdate(c);
    ValidAttestationsCount(w, c);
    assert SnapshotVote(c).targetNumber == Number(h) && SnapshotVote(c).targetHash == Of(h);
    assert ComposeVote(c).sourceNumber == Number(h) && ComposeVote(c).sourceHash == Of(h) && Direct(ComposeVote(c));
    DirectAttestationIsReported(w, d, d, pool);
    forall f | Reports(w, d, pool, f) ensures Ancestor(h, f) {
      ReportBuildsOnDirect(w, d, d, pool, f);
    }
  }
}
