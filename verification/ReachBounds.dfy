/** The reach of the finality theorem is exact: with targets up to 256 below the highest one, three
producers that follow every rule finalize two rival blocks at one height. */
module ReachBounds {
  import opened Chain
  import opened JournalHistory
  import opened Snapshots
  import opened ProducerRuns
  import opened ProducerWitness
  import opened Finality
  import opened FastFinality
  import opened FinalityBounds
  import opened NodeSafety
  import opened NodeBounds

  ghost function FaultyWithin(w: Network, reach: nat): set<nat> {
    set v | v in Validators(w.size) && !HonestWithin(w, v, reach)
  }

  ghost function OthersWithin(w: Network, reach: nat): set<nat> {
    set v | v in Validators(w.size) && !RunsProducerWithin(w, v, reach)
  }

  /** With fewer than a third faulty, reports at one height agree. */
  ghost predicate OneReportPerHeight(reach: nat) {
    forall w, h1, p1, f1, h2, p2, f2 ::
      && 3 * |FaultyWithin(w, reach)| < w.size && Reports(w, h1, p1, f1) && Reports(w, h2, p2, f2)
      && Number(f1) == Number(f2)
      ==> f1 == f2
  }

  /** The same with fewer than a third that do not run the producer. */
  ghost predicate OneReportPerHeightForProducers(reach: nat) {
    forall w, h1, p1, f1, h2, p2, f2 ::
      && 3 * |OthersWithin(w, reach)| < w.size && Reports(w, h1, p1, f1) && Reports(w, h2, p2, f2)
      && Number(f1) == Number(f2)
      ==> f1 == f2
  }

  lemma OthersIncludeFaulty(w: Network, reach: nat)
    ensures |FaultyWithin(w, reach)| <= |OthersWithin(w, reach)|
  {
    hide HonestWithin, RunsProducerWithin;
    forall v | v in FaultyWithin(w, reach) ensures v in OthersWithin(w, reach) {
      if RunsProducerWithin(w, v, reach) { ProducerIsHonestWithin(w, v, reach); }
    }
    SubsetCount(FaultyWithin(w, reach), OthersWithin(w, reach));
  }

  // ----- within the reach -----

  lemma HonestWithinMonotone(w: Network, v: nat, r: nat, r': nat)
    requires HonestWithin(w, v, r) && r <= r'
    ensures HonestWithin(w, v, r')
  {
    hide Runs.Legal, Runs.Run, Runs.AllStartedClean, Valid, ComposeVote;
    var es :| Runs.Legal(es, r) && Runs.AllStartedClean(es) && Runs.Run(es).broadcast == w.cast[v];
    Bounds.LegalMonotone(es, r, r');
  }

  lemma OneReportWithinReach(
    reach: nat, w: Network, h1: Block, p1: seq<Envelope>, f1: Block, h2: Block, p2: seq<Envelope>, f2: Block)
    requires reach <= REACH && 3 * |FaultyWithin(w, reach)| < w.size
    requires Reports(w, h1, p1, f1) && Reports(w, h2, p2, f2) && Number(f1) == Number(f2)
    ensures f1 == f2
  {
    hide HonestWithin, Reports;
    forall v | v in Faulty(w) ensures v in FaultyWithin(w, reach) {
      if HonestWithin(w, v, reach) { HonestWithinMonotone(w, v, reach, REACH); }
    }
    SubsetCount(Faulty(w), FaultyWithin(w, reach));
    ReportsAgree(w, h1, p1, f1, h2, p2, f2);
    AncestorNumber(f1, f2);
  }

  // ----- heads around a height -----

  /** A head, the plain heads of the 256 heights below it, 256 heads on top of `root` and a last
      head at the height of the first. */
  function SpreadHeads(center: nat, first: Block, last: Block, root: Block, above: nat): seq<Block>
    requires center >= 256
  {
    seq(514, i requires 0 <= i < 514 =>
      if i == 0 then first
      else if i == 513 then last
      else if i <= 256 then Extend(Genesis, center - 257 + i)
      else Extend(root, above + i - 257))
  }

  lemma {:induction false} ExtendSnapshot(b: Block, blocks: nat)
    ensures SnapshotVote(Extend(b, blocks)) == SnapshotVote(b)
  {
    if blocks > 0 {
      ExtendSnapshot(b, blocks - 1);
    }
  }

  lemma {:induction false} ExtendValid(w: Network, b: Block, blocks: nat)
    requires Valid(w, b)
    ensures Valid(w, Extend(b, blocks))
  {
    if blocks > 0 {
      ExtendValid(w, b, blocks - 1);
    }
  }

  /** The source of a vote of a spread whose finalized block is at height `t`. */
  function SourceAt(t: nat, number: nat): nat {
    if number <= t then 0 else t
  }

  ghost predicate IsHeadAt(w: Network, h: Block, t: nat, number: nat) {
    && h.Child? && Valid(w, h) && Number(h) == number
    && ComposeVote(h).sourceNumber == SourceAt(t, number) && ComposeVote(h).targetNumber == number
  }

  lemma LowHead(w: Network, t: nat, number: nat)
    requires 0 < number <= t
    ensures IsHeadAt(w, Extend(Genesis, number), t, number)
  {
    hide Valid;
    ExtendFacts(Genesis, number);
    BareBranch(w, Extend(Genesis, number));
  }

  lemma HighHead(w: Network, x: Block, voters: set<nat>, k: nat)
    requires x.Child? && Bare(x) && Valid(w, AttestedBy(x, voters))
    ensures IsHeadAt(w, Extend(AttestedBy(x, voters), k), Number(x), Number(x) + 1 + k)
  {
    hide Valid, SnapshotVote, Bare;
    ExtendFacts(AttestedBy(x, voters), k);
    ExtendSnapshot(AttestedBy(x, voters), k);
    ExtendValid(w, AttestedBy(x, voters), k);
    AttestedSnapshotVote(x, voters);
  }

  lemma SpreadHeadsFit(
    w: Network, t: nat, center: nat, first: Block, last: Block, x: Block, voters: set<nat>, i: nat)
    requires 258 <= t <= center <= t + 1 && i < 514
    requires IsHeadAt(w, first, t, center) && IsHeadAt(w, last, t, center)
    requires x.Child? && Bare(x) && Number(x) == t && Valid(w, AttestedBy(x, voters))
    ensures IsHeadAt(w, SpreadHeads(center, first, last, AttestedBy(x, voters), center - t)[i], t,
                     Bounds.SpreadTarget(center, i))
  {
    hide IsHeadAt, Bare, Valid, Extend;
    if 0 < i <= 256 {
      LowHead(w, t, center - 257 + i);
    } else if 256 < i < 513 {
      HighHead(w, x, voters, center - t + i - 257);
    }
  }

  /** Such heads make a spread of votes, and a producer votes for all of them within reach 256. */
  lemma SpreadProducer(
    w: Network, v: nat, t: nat, center: nat, first: Block, last: Block, x: Block, voters: set<nat>, warm: Block)
    requires 258 <= t <= center <= t + 1 && first != last
    requires IsHeadAt(w, first, t, center) && IsHeadAt(w, last, t, center)
    requires x.Child? && Bare(x) && Number(x) == t && Valid(w, AttestedBy(x, voters))
    requires warm.Child? && Bare(warm) && Number(warm) == 1
    requires v in w.cast && w.cast[v] == Composed(SpreadHeads(center, first, last, AttestedBy(x, voters), center - t))
    ensures RunsProducerWithin(w, v, REACH + 1)
  {
    hide Valid, Bare, RunsProducerWithin, Runs.Legal, Runs.Run, Bounds.Serve, ComposeVote, Extend, Bounds.StoreAll;
    var heads := SpreadHeads(center, first, last, AttestedBy(x, voters), center - t);
    var votes := Composed(heads);
    forall i | 0 <= i < 514 ensures IsHeadAt(w, heads[i], t, Bounds.SpreadTarget(center, i)) {
      SpreadHeadsFit(w, t, center, first, last, x, voters, i);
    }
    assert Bounds.IsSpread(votes, center);
    Bounds.SpreadIsARun(votes, center);
    BareBranch(w, warm);
    SpreadIsDifferent(heads, center, warm);
    forall h | h in [warm] + heads ensures h.Child? && Valid(w, h) {
      if h != warm {
        var i :| 0 <= i < 514 && heads[i] == h;
      }
    }
    OneProducer(w, v, warm, heads, REACH + 1);
  }

  lemma SpreadIsDifferent(heads: seq<Block>, center: nat, warm: Block)
    requires center >= 258 && Number(warm) == 1
    requires |heads| == 514 && forall i :: 0 <= i < 514 ==> Number(heads[i]) == Bounds.SpreadTarget(center, i)
    requires heads[0] != heads[513]
    ensures Different([warm] + heads)
  {
    var hs := [warm] + heads;
    forall i, j | 0 <= i < j < |hs| ensures hs[i] != hs[j] {
      assert Number(heads[j - 1]) == Bounds.SpreadTarget(center, j - 1);
      if i > 0 {
        assert Number(heads[i - 1]) == Bounds.SpreadTarget(center, i - 1);
      }
    }
  }

  // ----- three producers on two branches -----

  const FOR_A: set<nat> := {0, 1}
  const FOR_B: set<nat> := {0, 2}

  /** The first votes for both rivals and for the child of `b`, the second for `a` and for both
      children, the third for `b` and for the child of `a`. */
  function ThreeCasts(a: Block, b: Block): map<nat, seq<Block>>
    requires Number(a) >= 258
  {
    var t, onA, onB := Number(a), AttestedBy(a, FOR_A), AttestedBy(b, FOR_B);
    map[0 := SpreadHeads(t, a, b, onB, 0), 1 := SpreadHeads(t + 1, onA, onB, onA, 1), 2 := [b, onA]]
  }

  ghost predicate IsThreeNetwork(w: Network, a: Block, b: Block)
    requires Number(a) >= 258
  {
    var heads := ThreeCasts(a, b);
    && w.size == 3 && w.cast.Keys == {0, 1, 2}
    && forall v :: v in w.cast ==> w.cast[v] == Composed(heads[v])
  }

  /** Rivals at one height, the first of them on the plain branch. */
  ghost predicate Rivals(a: Block, b: Block) {
    && Number(a) >= 258 && a == Extend(Genesis, Number(a)) && Number(b) == Number(a) && a != b
    && a.Child? && Bare(a) && b.Child? && Bare(b)
  }

  lemma VotesFor(w: Network, v: nat, heads: seq<Block>, i: nat)
    requires v in w.cast && w.cast[v] == Composed(heads) && i < |heads|
    ensures HasCast(w, v, ComposeVote(heads[i]))
  {
    assert Composed(heads)[i] in Composed(heads);
  }

  lemma ThreeVotes(w: Network, a: Block, b: Block)
    requires Rivals(a, b) && IsThreeNetwork(w, a, b)
    ensures forall v :: v in FOR_A ==> HasCast(w, v, FirstVote(a))
    ensures forall v :: v in FOR_B ==> HasCast(w, v, FirstVote(b))
    ensures HasCast(w, 1, NextVote(a, FOR_A)) && HasCast(w, 2, NextVote(a, FOR_A))
    ensures HasCast(w, 0, NextVote(b, FOR_B)) && HasCast(w, 1, NextVote(b, FOR_B))
  {
    hide HasCast, ComposeVote, FirstVote, NextVote, Bare;
    var heads := ThreeCasts(a, b);
    AttestedSnapshotVote(a, FOR_A);
    AttestedSnapshotVote(b, FOR_B);
    VotesFor(w, 0, heads[0], 0);
    VotesFor(w, 0, heads[0], 257);
    VotesFor(w, 0, heads[0], 513);
    VotesFor(w, 1, heads[1], 0);
    VotesFor(w, 1, heads[1], 256);
    VotesFor(w, 1, heads[1], 513);
    VotesFor(w, 2, heads[2], 0);
    VotesFor(w, 2, heads[2], 1);
  }

  lemma ThreeHeads(w: Network, a: Block, b: Block)
    requires Rivals(a, b) && IsThreeNetwork(w, a, b)
    ensures var t := Number(a);
            && IsHeadAt(w, a, t, t) && IsHeadAt(w, b, t, t)
            && IsHeadAt(w, AttestedBy(a, FOR_A), t, t + 1) && IsHeadAt(w, AttestedBy(b, FOR_B), t, t + 1)
  {
    hide HasCast, Valid, SnapshotVote, Bare, IsThreeNetwork, Extend;
    ThreeVotes(w, a, b);
    RivalFacts(w, a, b);
    AttestedIsValid(w, a, FOR_A);
    AttestedIsValid(w, b, FOR_B);
    AttestedSnapshotVote(a, FOR_A);
    AttestedSnapshotVote(b, FOR_B);
  }

  lemma TwoHeadsAreServed(a: Block, b: Block)
    requires Rivals(a, b)
    ensures Served(Composed([b, AttestedBy(a, FOR_A)]))
    ensures Runs.Legal(Bounds.StoreAll(Composed([b, AttestedBy(a, FOR_A)])), REACH + 1)
  {
    hide Served, Runs.Legal, Bare, Extend;
    AttestedSnapshotVote(a, FOR_A);
    AttestedSnapshotVote(b, FOR_B);
    var votes := Composed([b, AttestedBy(a, FOR_A)]);
    assert votes == [FirstVote(b), NextVote(a, FOR_A)];
    ConsistentIsServed(votes);
    Bounds.LegalMonotone(Bounds.StoreAll(votes), REACH, REACH + 1);
  }

  lemma ThreeRunTheProducer(w: Network, a: Block, b: Block)
    requires Rivals(a, b) && IsThreeNetwork(w, a, b)
    ensures OthersWithin(w, REACH + 1) == {}
  {
    hide Valid, Bare, Extend, ComposeVote, RunsProducerWithin, Served, Runs.Legal;
    var t, onA, onB := Number(a), AttestedBy(a, FOR_A), AttestedBy(b, FOR_B);
    var warm := Child(Genesis, 0, false, None);
    PlainChild();
    ThreeHeads(w, a, b);
    SpreadProducer(w, 0, t, t, a, b, b, FOR_B, warm);
    SpreadProducer(w, 1, t, t + 1, onA, onB, a, FOR_A, warm);
    TwoHeadsAreServed(a, b);
    BareBranch(w, warm);
    OneProducer(w, 2, warm, [b, onA], REACH + 1);
    assert forall v :: v in Validators(w.size) ==> v == 0 || v == 1 || v == 2;
  }

  lemma PlainChild()
    ensures Bare(Child(Genesis, 0, false, None))
  {
  }

  lemma ThreeReportBoth(w: Network, a: Block, b: Block)
    requires Rivals(a, b) && IsThreeNetwork(w, a, b)
    ensures Reports(w, AttestedBy(a, FOR_A), Envelopes([1, 2], NextVote(a, FOR_A)), a)
    ensures Reports(w, AttestedBy(b, FOR_B), Envelopes([0, 1], NextVote(b, FOR_B)), b)
  {
    hide HasCast, Reports, Bare, Extend, NextVote, FirstVote, AttestedBy;
    ThreeVotes(w, a, b);
    assert w.size == 3;
    assert FOR_A <= Validators(3) && FOR_B <= Validators(3);
    BranchIsReported(w, a, FOR_A, [1, 2]);
    BranchIsReported(w, b, FOR_B, [0, 1]);
  }

  lemma SomeRivals(t: nat) returns (a: Block, b: Block, w: Network)
    requires t >= 258
    ensures Rivals(a, b) && IsThreeNetwork(w, a, b)
  {
    hide SpreadHeads, Composed, AttestedBy;
    a, b := Extend(Genesis, t), Child(Extend(Genesis, t - 1), 1, false, None);
    ExtendFacts(Genesis, t);
    ExtendFacts(Genesis, t - 1);
    var heads := ThreeCasts(a, b);
    w := Network(3, map[0 := Composed(heads[0]), 1 := Composed(heads[1]), 2 := Composed(heads[2])]);
  }

  lemma OthersWithinMonotone(w: Network, r: nat, r': nat)
    requires r <= r'
    ensures |OthersWithin(w, r')| <= |OthersWithin(w, r)|
  {
    hide Runs.Legal, Run, AllStartedClean, ValidHeads;
    forall v | v in OthersWithin(w, r') ensures v in OthersWithin(w, r) {
      if RunsProducerWithin(w, v, r) {
        var es, warmup :|
          && warmup > 0 && Legal(es, warmup, r) && AllStartedClean(es, warmup)
          && ValidHeads(w, es) && w.cast[v] == Run(es, warmup).sent;
        Bounds.LegalMonotone(JournalEvents(es, warmup), r, r');
      }
    }
    SubsetCount(OthersWithin(w, r'), OthersWithin(w, r));
  }

  lemma BeyondReach(reach: nat, t: nat)
    requires reach > REACH && t >= 258
    ensures !OneReportPerHeight(reach) && !OneReportPerHeightForProducers(reach)
  {
    hide Reports, FaultyWithin, OthersWithin, IsThreeNetwork, Rivals, Envelopes, NextVote, AttestedBy;
    var a, b, w := SomeRivals(t);
    RivalFacts(w, a, b);
    ThreeRunTheProducer(w, a, b);
    ThreeReportBoth(w, a, b);
    OthersWithinMonotone(w, REACH + 1, reach);
    OthersIncludeFaulty(w, reach);
  }

  lemma RivalFacts(w: Network, a: Block, b: Block)
    requires Rivals(a, b) && IsThreeNetwork(w, a, b)
    ensures w.size == 3 && Number(a) == Number(b) && a != b
  {
  }

  /** One report per height holds exactly up to a reach of 255. */
  lemma OneReportExactlyUpTo255(reach: nat)
    ensures OneReportPerHeight(reach) <==> reach <= REACH
  {
    hide Reports, FaultyWithin;
    if reach <= REACH {
      forall w, h1, p1, f1, h2, p2, f2 |
        && 3 * |FaultyWithin(w, reach)| < w.size && Reports(w, h1, p1, f1) && Reports(w, h2, p2, f2)
        && Number(f1) == Number(f2)
        ensures f1 == f2
      {
        OneReportWithinReach(reach, w, h1, p1, f1, h2, p2, f2);
      }
    } else {
      BeyondReach(reach, 258);
    }
  }

  /** The same for networks of producers. */
  lemma ProducersReportOnceExactlyUpTo255(reach: nat)
    ensures OneReportPerHeightForProducers(reach) <==> reach <= REACH
  {
    hide Reports, FaultyWithin, OthersWithin;
    if reach <= REACH {
      forall w, h1, p1, f1, h2, p2, f2 |
        && 3 * |OthersWithin(w, reach)| < w.size && Reports(w, h1, p1, f1) && Reports(w, h2, p2, f2)
        && Number(f1) == Number(f2)
        ensures f1 == f2
      {
        OthersIncludeFaulty(w, reach);
        OneReportWithinReach(reach, w, h1, p1, f1, h2, p2, f2);
      }
    } else {
      BeyondReach(reach, 258);
    }
  }
}
