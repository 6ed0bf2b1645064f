/** The whole stack at once: if fewer than a third of the validators do anything but run the
vote producer, the blocks that any two nodes report as finalized lie on one branch. */
module NodeSafety {
  import opened Chain
  import opened VoteJournal
  import opened JournalHistory
  import opened Snapshots
  import opened Finality
  import opened FastFinality
  import Producers = ProducerRuns

  ghost predicate ValidHeads(w: Network, es: seq<Producers.Event>) {
    forall i :: 0 <= i < |es| && es[i].Head? ==> es[i].head.Child? && Valid(w, es[i].head)
  }

  /** The validator's votes are those of a producer run of the given reach over valid heads, each
      from an append that began on a complete line. */
  ghost predicate RunsProducerWithin(w: Network, v: nat, reach: nat) {
    v in w.cast && exists es, warmup ::
      && warmup > 0 && Producers.Legal(es, warmup, reach) && Producers.AllStartedClean(es, warmup)
      && ValidHeads(w, es) && w.cast[v] == Producers.Run(es, warmup).sent
  }

  ghost predicate RunsProducer(w: Network, v: nat) {
    RunsProducerWithin(w, v, REACH)
  }

  ghost function Others(w: Network): set<nat> {
    set v | v in Validators(w.size) && !RunsProducer(w, v)
  }

  /** The validators that do not run the producer with rising targets. */
  ghost function UnsteadyOthers(w: Network): set<nat> {
    set v | v in Validators(w.size) && !(RunsProducer(w, v) && TargetsRise(w, v))
  }

  lemma ProducerIsHonestWithin(w: Network, v: nat, reach: nat)
    requires RunsProducerWithin(w, v, reach)
    ensures HonestWithin(w, v, reach)
  {
    hide Producers.Legal, Producers.AllStartedClean, Producers.Run, HonestWithin;
    var es, warmup :|
      && warmup > 0 && Producers.Legal(es, warmup, reach) && Producers.AllStartedClean(es, warmup)
      && ValidHeads(w, es) && w.cast[v] == Producers.Run(es, warmup).sent;
    Producers.ProducerIsHonest(w, v, es, warmup, reach);
  }

  lemma ProducersAreHonest(w: Network)
    ensures Faulty(w) <= Others(w) && Unsteady(w) <= UnsteadyOthers(w)
  {
    hide HonestWithin, RunsProducerWithin, TargetsRise;
    forall v | v in Validators(w.size) && RunsProducer(w, v) ensures Honest(w, v) {
      ProducerIsHonestWithin(w, v, REACH);
    }
  }

  /** If fewer than a third of the validators do not run the producer, any two reports within 12
      heights are on one branch, and within 257 heights if fewer than a third do not run it with
      rising targets. */
  lemma NodesAgree(w: Network, h1: Block, p1: seq<Envelope>, f1: Block, h2: Block, p2: seq<Envelope>, f2: Block)
    requires Reports(w, h1, p1, f1) && Reports(w, h2, p2, f2) && Number(f1) <= Number(f2)
    requires || (3 * |Others(w)| < w.size && Number(f2) <= Number(f1) + UPPER_LIMIT_OF_VOTE_BLOCK_NUMBER + 1)
             || (3 * |UnsteadyOthers(w)| < w.size && Number(f2) <= Number(f1) + MALICIOUS_VOTE_SLASH_SCOPE + 1)
    ensures Ancestor(f1, f2)
  {
    hide Others, UnsteadyOthers, Faulty, Unsteady, Reports, Ancestor;
    ProducersAreHonest(w);
    SubsetCount(Faulty(w), Others(w));
    SubsetCount(Unsteady(w), UnsteadyOthers(w));
    ReportsAgree(w, h1, p1, f1, h2, p2, f2);
  }
}
