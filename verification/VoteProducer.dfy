/** The gates a canonical head passes before its vote leaves the node
(src/node/vote_producer.rs). */
module VoteProducer {
  import opened Chain
  import opened Lru
  import opened VoteJournal
  import opened Snapshots

  const PRODUCED_CAPACITY: nat := 2048

  /** What one call finds outside the producer: mining configuration, fork schedule, key,
      snapshot provider, validator set, clock, header cache, signer and file system. */
  datatype Observed = Observed(
    mining: bool, luban: bool, signer: bool, snapshot: bool, publicKey: bool, validator: bool, late: bool,
    genesisCached: bool, signed: bool, io: Io)

  datatype Producer = Producer(
    startVote: bool, blocksSinceMining: nat, produced: seq<Entry<Block, ()>>, journal: Journal)

  /** The head is looked up among the heads already handled. */
  predicate ReachesDedup(p: Producer, o: Observed) {
    o.mining && p.startVote && o.luban && o.signer
  }

  predicate NewHead(p: Producer, head: Block, o: Observed) {
    ReachesDedup(p, o) && Lookup(p.produced, head).None?
  }

  predicate SourceKnown(head: Block, o: Observed) {
    SnapshotVote(head).targetHash != Zero || o.genesisCached
  }

  /** The vote for the head can be composed, passes the rules and is signed. */
  predicate Signs(j: Journal, head: Block, o: Observed) {
    && o.snapshot && o.publicKey && o.validator && !o.late
    && SourceKnown(head, o)
    && UnderRules(j.lru.entries, ComposeVote(head).sourceNumber, ComposeVote(head).targetNumber)
    && o.signed
  }

  /** The vote is signed and handed to the journal. */
  predicate Persists(p: Producer, head: Block, o: Observed, warmup: nat) {
    NewHead(p, head, o) && p.blocksSinceMining >= warmup && Signs(p.journal, head, o)
  }

  function Min(a: nat, b: nat): nat {
    if a <= b then a else b
  }

  function Handled(p: Producer, head: Block, o: Observed, warmup: nat): Producer {
    p.(produced :=
         if NewHead(p, head, o) then Put(p.produced, PRODUCED_CAPACITY, head, ())
         else if ReachesDedup(p, o) then Got(p.produced, head)
         else p.produced,
       blocksSinceMining :=
         if !o.mining then 0
         else if NewHead(p, head, o) then Min(p.blocksSinceMining + 1, warmup)
         else p.blocksSinceMining,
       journal :=
         if Persists(p, head, o, warmup) then Written(p.journal, ComposeVote(head), o.io).0 else p.journal)
  }

  /** The vote that leaves the node. */
  function Sent(p: Producer, head: Block, o: Observed, warmup: nat): Option<VoteData> {
    if Persists(p, head, o, warmup) && Written(p.journal, ComposeVote(head), o.io).1.Accepted? then
      Some(ComposeVote(head))
    else None
  }

  class VoteProducer {
    var startVote: bool
    var blocksSinceMining: nat
    const produced: LruMap<Block, ()>
    const journal: VoteJournal

    ghost predicate Valid() {
      produced.capacity == PRODUCED_CAPACITY && journal.Valid()
    }

    ghost function View(): Producer
      reads this, produced, journal, journal.lru
    {
      Producer(startVote, blocksSinceMining, produced.entries, journal.View())
    }

    constructor (d: Disk)
      ensures Valid()
      ensures View() == Producer(true, 0, [], Journal(Load(d), d))
    {
      startVote, blocksSinceMining := true, 0;
      produced := new LruMap<Block, ()>(PRODUCED_CAPACITY);
      journal := new VoteJournal(d);
    }

    method SetDownloaderActive(active: bool)
      modifies this
      ensures View() == old(View()).(startVote := !active)
    {
      startVote := !active;
    }

    method MaybeProduceAndBroadcastForHead(head: Block, o: Observed, warmup: nat) returns (sent: Option<VoteData>)
      requires Valid()
      modifies this, produced, journal, journal.lru
      ensures Valid()
      ensures View() == Handled(old(View()), head, o, warmup)
      ensures sent == Sent(old(View()), head, o, warmup)
    {
      hide Lookup, Put, Signs, Written;
      if !o.mining {
        blocksSinceMining := 0;
        return None;
      }
      if !startVote {
        return None;
      }
      if !o.luban {
        return None;
      }
      if !o.signer {
        return None;
      }
      var duplicate := produced.Get(head);
      if duplicate.Some? {
        return None;
      }
      produced.Insert(head, ());
      var count := blocksSinceMining + 1;
      blocksSinceMining := count;
      if count <= warmup {
        return None;
      }
      blocksSinceMining := warmup;
      sent := SignAndJournal(head, o);
    }

    /** From the snapshot lookup to the broadcast. */
    method SignAndJournal(head: Block, o: Observed) returns (sent: Option<VoteData>)
      requires Valid()
      modifies journal, journal.lru
      ensures Valid()
      ensures var (after, result) := Written(old(journal.View()), ComposeVote(head), o.io);
              if Signs(old(journal.View()), head, o) then
                && journal.View() == after
                && sent == if result.Accepted? then Some(ComposeVote(head)) else None
              else journal.View() == old(journal.View()) && sent == None
    {
      hide UnderRules, SnapshotVote, Written;
      if !o.snapshot {
        return None;
      }
      if !o.publicKey {
        return None;
      }
      if !o.validator {
        return None;
      }
      if o.late {
        return None;
      }
      var snap := SnapshotVote(head);
      var sourceNumber, sourceHash := snap.targetNumber, snap.targetHash;
      if sourceHash == Zero {
        if !o.genesisCached {
          return None;
        }
        sourceNumber, sourceHash := Number(Genesis), Of(Genesis);
      }
      var allowed := journal.CheckRules(sourceNumber, Number(head));
      if !allowed {
        return None;
      }
      var data := VoteData(sourceNumber, sourceHash, Number(head), Of(head));
      if !o.signed {
        return None;
      }
      var result := journal.WriteVote(data, o.io);
      if !result.Accepted? {
        return None;
      }
      return Some(data);
    }
  }
}
