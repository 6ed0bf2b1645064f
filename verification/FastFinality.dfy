/** From snapshots to finality: what the engine reports is finalized in the sense of the
Casper argument, so two reports never disagree within the journal's windows. */
module FastFinality {
  import opened Chain
  import opened VoteJournal
  import opened Snapshots
  import opened Finality

  // ----- what a snapshot's vote range means -----

  /** The target is a justified proper ancestor, the source genesis or a finalized block
      below the target. */
  ghost predicate Sound(w: Network, b: Block, snap: VoteData) {
    && snap.targetHash.Of? && snap.sourceHash.Of?
    && (var t, s := snap.targetHash.block, snap.sourceHash.block;
        && snap.targetNumber == Number(t) && snap.sourceNumber == Number(s)
        && Ancestor(t, b) && Number(t) < Number(b) && t.Child? && Justified(w, t)
        && Ancestor(s, t) && Number(s) < Number(t) && (s == Genesis || Finalized(w, s)))
  }

  ghost predicate SnapshotOk(w: Network, b: Block) {
    SnapshotVote(b) == NO_VOTE || Sound(w, b, SnapshotVote(b))
  }

  lemma {:induction false} TargetWithinIsAncestor(b: Block, depth: nat, data: VoteData)
    requires TargetWithin(b, depth, data)
    ensures data.targetHash.Of?
    ensures Ancestor(data.targetHash.block, b) && data.targetNumber == Number(data.targetHash.block)
  {
    if !(data.targetNumber == Number(b) && data.targetHash == Of(b)) {
      TargetWithinIsAncestor(b.parent, depth - 1, data);
    }
  }

  /** A verified attestation holds at least one vote of an honest validator. */
  lemma HonestVoter(w: Network, b: Block) returns (v: nat)
    requires FewFaulty(w) && b.Child? && b.attestation.Some? && AttestationVerified(w, b)
    ensures Honest(w, v) && HasCast(w, v, b.attestation.value.data)
  {
    var counted := set v | v in b.attestation.value.voters && v < w.size;
    if counted <= Faulty(w) {
      SubsetCount(counted, Faulty(w));
    }
    v :| v in counted && v !in Faulty(w);
  }

  lemma AttestationIsLink(w: Network, b: Block, t: Block)
    requires b.Child? && b.attestation.Some? && AttestationVerified(w, b)
    requires b.attestation.value.data.targetHash == Of(t)
    requires b.attestation.value.data.targetNumber == Number(t)
    ensures Link(w, b.attestation.value.data.sourceNumber, t)
  {
    var data := b.attestation.value.data;
    var counted := set v | v in b.attestation.value.voters && v < w.size;
    forall v | v in counted ensures v in Supporters(w, data.sourceNumber, t) {
      assert SupportsWith(data, data.sourceNumber, t);
    }
    SubsetCount(counted, Supporters(w, data.sourceNumber, t));
  }

  /** A composed vote points upwards. */
  lemma ComposedVoteIsWellFormed(w: Network, h: Block)
    requires h.Child? && SnapshotOk(w, h)
    ensures ComposeVote(h).sourceNumber < ComposeVote(h).targetNumber
  {
  }

  /** The block that the attestation of a child of `b` takes as its source. */
  lemma SourceIsJustified(w: Network, b: Block)
    requires SnapshotOk(w, b)
    ensures JustifiedHeader(SnapshotVote(b)).Some?
    ensures Justified(w, JustifiedHeader(SnapshotVote(b)).value) && Ancestor(JustifiedHeader(SnapshotVote(b)).value, b)
  {
    GenesisIsAncestor(b);
  }

  /** Applying a verified header keeps the snapshot sound. */
  lemma AttestedSnapshot(w: Network, b: Block)
    requires b.Child? && b.attestation.Some? && AttestationVerified(w, b)
    requires SnapshotOk(w, b.parent)
    requires b.attestation.value.data.sourceNumber < b.attestation.value.data.targetNumber
    ensures SnapshotOk(w, b)
  {
    hide HasCast, Supporters;
    var data, before := b.attestation.value.data, SnapshotVote(b.parent);
    TargetWithinIsAncestor(b.parent, if b.fermi then K_ANCESTOR_GENERATION_DEPTH else 1, data);
    SourceIsJustified(w, b.parent);
    var t, s := data.targetHash.block, JustifiedHeader(before).value;
    AncestorsAreLinear(s, t, b.parent);
    AncestorNumber(t, b.parent);
    AttestationIsLink(w, b, t);
    assert Justified(w, t);
    if before != NO_VOTE {
      AncestorTransitive(before.sourceHash.block, s, t);
    }
    if data.sourceNumber + 1 == data.targetNumber {
      AncestorNumber(s, t);
      DirectChild(s, t);
      assert Finalized(w, s);
    }
  }

  lemma DirectChild(a: Block, b: Block)
    requires Ancestor(a, b) && Number(b) == Number(a) + 1
    ensures b.Child? && b.parent == a
  {
    AncestorNumber(a, b.parent);
  }

  /** The vote of a verified attestation was composed for a valid ancestor. */
  lemma AttestedVoteIsComposed(w: Network, b: Block) returns (h: Block)
    requires FewFaulty(w) && Valid(w, b) && b.Child? && b.attestation.Some?
    ensures h.Child? && Valid(w, h) && Ancestor(h, b.parent) && b.attestation.value.data == ComposeVote(h)
  {
    var data := b.attestation.value.data;
    var v := HonestVoter(w, b);
    h :| h.Child? && Valid(w, h) && data == ComposeVote(h);
    TargetWithinIsAncestor(b.parent, if b.fermi then K_ANCESTOR_GENERATION_DEPTH else 1, data);
  }

  lemma {:induction false} ValidSnapshot(w: Network, b: Block)
    requires FewFaulty(w) && Valid(w, b)
    ensures SnapshotOk(w, b)
    decreases Number(b)
  {
    if b.Child? {
      ValidSnapshot(w, b.parent);
      if b.attestation.Some? {
        var h := AttestedVoteIsComposed(w, b);
        AncestorNumber(h, b.parent);
        ValidSnapshot(w, h);
        ComposedVoteIsWellFormed(w, h);
        AttestedSnapshot(w, b);
      }
    }
  }

  // ----- what the engine reports -----

  ghost function EligibleVoters(pool: seq<Envelope>, source: nat, target: nat): set<nat> {
    set i | 0 <= i < |pool| && Eligible(pool[i], source, target) :: pool[i].voter
  }

  lemma {:induction false} EligibleVotersCount(pool: seq<Envelope>, source: nat, target: nat)
    requires forall i, j :: 0 <= i < j < |pool| ==> pool[i].voter != pool[j].voter
    ensures |EligibleVoters(pool, source, target)| == EligibleVotes(pool, source, target)
  {
    if |pool| > 0 {
      var init, last := pool[..|pool| - 1], pool[|pool| - 1];
      EligibleVotersCount(init, source, target);
      hide Eligible;
      var voters, voters' := EligibleVoters(init, source, target), EligibleVoters(pool, source, target);
      forall v | v in voters' ensures v in voters || (v == last.voter && Eligible(last, source, target)) {
        var i :| 0 <= i < |pool| && Eligible(pool[i], source, target) && pool[i].voter == v;
        assert i < |init| ==> init[i] == pool[i];
      }
      forall v | v in voters ensures v in voters' && v != last.voter {
        var i :| 0 <= i < |init| && Eligible(init[i], source, target) && init[i].voter == v;
        assert pool[i] == init[i];
      }
      assert voters' == if Eligible(last, source, target) then voters + {last.voter} else voters;
    }
  }

  /** Pooled votes are a link. */
  lemma PoolIsLink(w: Network, header: Block, pool: seq<Envelope>, source: nat)
    requires PoolOf(w, header, pool)
    requires EligibleVotes(pool, source, Number(header)) >= Quorum(w.size)
    ensures Link(w, source, header)
  {
    EligibleVotersCount(pool, source, Number(header));
    var voters := EligibleVoters(pool, source, Number(header));
    forall v | v in voters ensures v in Supporters(w, source, header) {
      var i :| 0 <= i < |pool| && Eligible(pool[i], source, Number(header)) && pool[i].voter == v;
      assert SupportsWith(pool[i].data, source, header);
    }
    SubsetCount(voters, Supporters(w, source, header));
  }

  /** A reported block lies on the header's branch and is genesis or finalized. */
  lemma ReportedIsFinalized(w: Network, header: Block, pool: seq<Envelope>, f: Block)
    requires FewFaulty(w) && Reports(w, header, pool, f)
    ensures Ancestor(f, header) && (f == Genesis || Finalized(w, f))
  {
    ValidSnapshot(w, header);
    var snap := SnapshotVote(header);
    if snap.targetHash == Of(f) && snap.targetNumber + 1 == Number(header)
       && EligibleVotes(pool, snap.targetNumber, Number(header)) >= Quorum(w.size) {
      DirectChild(f, header);
      PoolIsLink(w, header, pool, Number(f));
    } else {
      AncestorTransitive(f, snap.targetHash.block, header);
    }
  }

  /** Two reports whose heights are close enough lie on one branch. */
  lemma ReportsAgree(w: Network, h1: Block, p1: seq<Envelope>, f1: Block, h2: Block, p2: seq<Envelope>, f2: Block)
    requires Reports(w, h1, p1, f1) && Reports(w, h2, p2, f2) && Number(f1) <= Number(f2)
    requires || (FewFaulty(w) && Number(f2) <= Number(f1) + UPPER_LIMIT_OF_VOTE_BLOCK_NUMBER + 1)
             || (FewUnsteady(w) && Number(f2) <= Number(f1) + MALICIOUS_VOTE_SLASH_SCOPE + 1)
    ensures Ancestor(f1, f2)
  {
    hide FewFaulty, FewUnsteady;
    OnlyFaultyAreUnsteady(w);
    ReportedIsFinalized(w, h1, p1, f1);
    ReportedIsFinalized(w, h2, p2, f2);
    GenesisIsAncestor(f2);
    if f1 != Genesis && f2 != Genesis {
      JustifiedBuildsOnFinalized(w, f1, f2);
    }
  }
}
