/** The conditions of the finality theorem are exact for nodes that run the vote producer: the
distances, and the complete lines. */
module NodeBounds {
  import opened Chain
  import opened JournalHistory
  import opened Snapshots
  import opened ProducerRuns
  import opened ProducerWitness
  import opened Finality
  import opened FinalityBounds
  import opened NodeSafety

  // ----- a lone producer that finalizes two branches -----

  /** A producer with a one-block warm-up that sees `first` and then the heads it votes for. */
  lemma OneProducer(w: Network, v: nat, first: Block, heads: seq<Block>, reach: nat)
    requires v in w.cast && w.cast[v] == Composed(heads)
    requires Different([first] + heads) && Served(Composed(heads))
    requires Runs.Legal(Bounds.StoreAll(Composed(heads)), reach)
    requires forall h :: h in [first] + heads ==> h.Child? && Valid(w, h)
    ensures RunsProducerWithin(w, v, reach)
  {
    hide Run, Runs.Legal, Legal, AllStartedClean, Valid, Served, Composed;
    var hs, es := [first] + heads, Heads([first] + heads);
    assert Voted(hs, 1) == heads;
    ProducerSendsAll(hs, 1, reach);
    assert ValidHeads(w, es);
  }

  lemma ConsistentIsServed(votes: seq<VoteData>)
    requires Consistent(votes, REACH)
    ensures Served(votes) && Runs.Legal(Bounds.StoreAll(votes), REACH)
  {
    hide Consistent, Bounds.Serve, Runs.Legal, Bounds.StoreAll, Runs.Run, Runs.AllStartedClean;
    Bounds.ConsistentHistoryIsServed(votes);
    Bounds.ConsistentHistoryIsARun(votes);
  }

  /** The four heads of two plain branches, one branch after the other. */
  function BothBranches(one: Block, two: Block): seq<Block> {
    [one, Attesting(one), two, Attesting(two)]
  }

  lemma LoneProducerReportsBoth(w: Network, one: Block, two: Block, first: Block)
    requires w == Network(1, map[0 := Composed(BothBranches(one, two))])
    requires one.Child? && Bare(one) && two.Child? && Bare(two) && first.Child? && Bare(first)
    requires Different([first] + BothBranches(one, two))
    requires Consistent([FirstVote(one), SecondVote(one), FirstVote(two), SecondVote(two)], REACH)
    ensures Others(w) == {} && (TargetsRise(w, 0) ==> UnsteadyOthers(w) == {})
    ensures w.cast[0] == [FirstVote(one), SecondVote(one), FirstVote(two), SecondVote(two)]
    ensures Reports(w, Attesting(one), [Envelope(0, SecondVote(one))], one)
    ensures Reports(w, Attesting(two), [Envelope(0, SecondVote(two))], two)
  {
    hide FirstVote, NextVote, Valid, Reports, Consistent, Bare, RunsProducerWithin, TargetsRise, Different;
    hide Others, UnsteadyOthers, HasCast, Composed;
    ComposedOnBranches(one, two);
    var votes := w.cast[0];
    FourAreCast(w, votes[0], votes[1], votes[2], votes[3]);
    BranchReports(w, one);
    BranchReports(w, two);
    LoneProducerRuns(w, one, two, first);
    NoOthers(w);
  }

  lemma ComposedOnBranches(one: Block, two: Block)
    requires one.Child? && Bare(one) && two.Child? && Bare(two)
    ensures Composed(BothBranches(one, two)) == [FirstVote(one), SecondVote(one), FirstVote(two), SecondVote(two)]
  {
    hide FirstVote, NextVote, Bare, ComposeVote;
    AttestedSnapshotVote(one, {0});
    AttestedSnapshotVote(two, {0});
  }

  lemma LoneProducerRuns(w: Network, one: Block, two: Block, first: Block)
    requires 0 in w.cast && w.cast[0] == Composed(BothBranches(one, two)) && Consistent(w.cast[0], REACH)
    requires one.Child? && two.Child? && first.Child? && Bare(first) && Different([first] + BothBranches(one, two))
    requires Valid(w, one) && Valid(w, Attesting(one)) && Valid(w, two) && Valid(w, Attesting(two))
    ensures RunsProducer(w, 0)
  {
    hide Valid, Consistent, Bare, RunsProducerWithin, Served, Composed, Different;
    BareBranch(w, first);
    ConsistentIsServed(w.cast[0]);
    OneProducer(w, 0, first, BothBranches(one, two), REACH);
  }

  lemma FourAreCast(w: Network, a: VoteData, b: VoteData, c: VoteData, d: VoteData)
    requires 0 in w.cast && w.cast[0] == [a, b, c, d]
    ensures HasCast(w, 0, a) && HasCast(w, 0, b) && HasCast(w, 0, c) && HasCast(w, 0, d)
  {
    var votes := w.cast[0];
    assert votes[0] in votes && votes[1] in votes && votes[2] in votes && votes[3] in votes;
  }

  lemma NoOthers(w: Network)
    requires w.size == 1 && RunsProducer(w, 0)
    ensures Others(w) == {} && (TargetsRise(w, 0) ==> UnsteadyOthers(w) == {})
  {
    hide RunsProducerWithin, TargetsRise;
  }

  // ----- the exact distances -----

  ghost predicate SafeForProducers(distance: nat) {
    forall w, h1, p1, f1, h2, p2, f2 ::
      && 3 * |Others(w)| < w.size && Reports(w, h1, p1, f1) && Reports(w, h2, p2, f2)
      && Number(f1) <= Number(f2) <= Number(f1) + distance
      ==> Ancestor(f1, f2)
  }

  ghost predicate SafeForProducersWhenRising(distance: nat) {
    forall w, h1, p1, f1, h2, p2, f2 ::
      && 3 * |UnsteadyOthers(w)| < w.size && Reports(w, h1, p1, f1) && Reports(w, h2, p2, f2)
      && Number(f1) <= Number(f2) <= Number(f1) + distance
      ==> Ancestor(f1, f2)
  }

  /** Another child of genesis, for the warm-up. */
  lemma FirstHead(a: Block, b: Block) returns (first: Block)
    requires a.Child? && b.Child? && Number(a) == 1 && Number(b) > 2
    ensures first.Child? && Bare(first)
    ensures Different([first] + BothBranches(a, b)) && Different([first] + BothBranches(b, a))
  {
    first := Child(Genesis, a.salt + 1, false, None);
    assert Number(first) == 1 && first != a;
    assert Number(Attesting(a)) == 2 && Number(Attesting(b)) == Number(b) + 1;
  }

  lemma NotSafeForProducers13(distance: nat, a: Block, b: Block)
    requires Bare(a) && Bare(b) && Number(a) == 1 && Number(b) == 14 && !Ancestor(a, b)
    requires distance >= 13
    ensures !SafeForProducers(distance)
  {
    hide FirstVote, SecondVote, Bare, Attesting, Consistent, Reports, Others, Ancestor;
    HighFirstIsConsistent(a, b);
    var first := FirstHead(a, b);
    var w := Network(1, map[0 := Composed(BothBranches(b, a))]);
    LoneProducerReportsBoth(w, b, a, first);
  }

  lemma NotSafeForProducers258(distance: nat, a: Block, b: Block)
    requires Bare(a) && Bare(b) && Number(a) == 1 && Number(b) == 259 && !Ancestor(a, b)
    requires distance >= 258
    ensures !SafeForProducersWhenRising(distance)
  {
    hide FirstVote, SecondVote, Bare, Attesting, Consistent, Reports, Others, UnsteadyOthers, TargetsRise, Ancestor;
    LowFirstIsConsistent(a, b);
    var first := FirstHead(a, b);
    var w := Network(1, map[0 := Composed(BothBranches(a, b))]);
    LoneProducerReportsBoth(w, a, b, first);
    assert w == Network(1, map[0 := [FirstVote(a), SecondVote(a), FirstVote(b), SecondVote(b)]]);
  }

  /** Reports of a network of producers agree within a distance exactly up to 12. */
  lemma ProducersSafeExactlyWithin12(distance: nat)
    ensures SafeForProducers(distance) <==> distance <= 12
  {
    if distance <= 12 {
      forall w, h1, p1, f1, h2, p2, f2 |
        && 3 * |Others(w)| < w.size && Reports(w, h1, p1, f1) && Reports(w, h2, p2, f2)
        && Number(f1) <= Number(f2) <= Number(f1) + distance
        ensures Ancestor(f1, f2)
      {
        NodesAgree(w, h1, p1, f1, h2, p2, f2);
      }
    } else {
      var a, b := BareRivals(14, 1);
      NotSafeForProducers13(distance, a, b);
    }
  }

  /** With rising targets exactly up to 257. */
  lemma ProducersSafeExactlyWithin257(distance: nat)
    ensures SafeForProducersWhenRising(distance) <==> distance <= 257
  {
    if distance <= 257 {
      forall w, h1, p1, f1, h2, p2, f2 |
        && 3 * |UnsteadyOthers(w)| < w.size && Reports(w, h1, p1, f1) && Reports(w, h2, p2, f2)
        && Number(f1) <= Number(f2) <= Number(f1) + distance
        ensures Ancestor(f1, f2)
      {
        NodesAgree(w, h1, p1, f1, h2, p2, f2);
      }
    } else {
      var a, b := BareRivals(259, 1);
      NotSafeForProducers258(distance, a, b);
    }
  }

  // ----- the complete lines are needed -----

  /** A lone validator that runs the producer on valid heads, after any warm-up, has both of two
      rival blocks at one height reported as finalized once its appends meet torn lines. */
  lemma TornLinesBreakFinality(a: Block, b: Block, warm: seq<Block>, warmup: nat)
    requires a.Child? && Bare(a) && b.Child? && Bare(b) && Number(a) == Number(b) && a != b
    requires Different(warm) && |warm| == warmup && forall h :: h in warm ==> h.Child? && Bare(h)
    requires forall h :: h in BothBranches(a, b) ==> h !in warm
    ensures var es := TornHeads(BothBranches(a, b), warm);
            var w := Network(1, map[0 := Run(es, warmup).sent]);
            && Legal(es, warmup, REACH) && ValidHeads(w, es)
            && Reports(w, Attesting(a), [Envelope(0, SecondVote(a))], a)
            && Reports(w, Attesting(b), [Envelope(0, SecondVote(b))], b)
            && !Ancestor(a, b)
  {
    hide Run, Legal, Runs.Legal, Reports, Bare, Valid, TornHeads, Bounds.TornVotes, Ancestor;
    var heads, votes := BothBranches(a, b), [FirstVote(a), SecondVote(a), FirstVote(b), SecondVote(b)];
    ComposedOnBranches(a, b);
    AnyHeadsOnTornLines(heads, warm, warmup);
    Bounds.TornVotesAreLegal(votes);
    var w := Network(1, map[0 := votes]);
    FourAreCast(w, votes[0], votes[1], votes[2], votes[3]);
    BranchReports(w, a);
    BranchReports(w, b);
    TornHeadsAreValid(w, heads, warm);
    if Ancestor(a, b) {
      AncestorNumber(a, b);
    }
  }

  lemma TornHeadsAreValid(w: Network, heads: seq<Block>, warm: seq<Block>)
    requires forall h :: h in warm ==> h.Child? && Bare(h)
    requires forall h :: h in heads ==> h.Child? && Valid(w, h)
    ensures ValidHeads(w, TornHeads(heads, warm))
  {
    hide TornHeads, Valid, Bare;
    TornHeadsMembers(heads, warm);
    forall h | h in warm ensures Valid(w, h) {
      BareBranch(w, h);
    }
    var es := TornHeads(heads, warm);
    forall i | 0 <= i < |es| && es[i].Head? ensures es[i].head.Child? && Valid(w, es[i].head) {
      assert es[i] in es;
    }
  }
}
