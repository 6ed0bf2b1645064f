/** Producer runs that send given votes: the gates hold back nothing that the journal admits. */
module ProducerWitness {
  import opened Chain
  import opened VoteJournal
  import opened JournalHistory
  import opened Snapshots
  import opened VoteProducer
  import opened ProducerRuns
  import Bounds = JournalBounds

  /** A call that nothing outside the producer holds up. */
  const READY := Observed(true, true, true, true, true, true, false, true, true, Stored)

  function Heads(hs: seq<Block>): seq<Event> {
    seq(|hs|, i requires 0 <= i < |hs| => Head(hs[i], READY))
  }

  function Composed(hs: seq<Block>): seq<VoteData> {
    seq(|hs|, i requires 0 <= i < |hs| => ComposeVote(hs[i]))
  }

  ghost predicate Different(hs: seq<Block>) {
    forall i, j :: 0 <= i < j < |hs| ==> hs[i] != hs[j]
  }

  // ----- single events -----

  lemma Appended(es: seq<Event>, e: Event, warmup: nat)
    ensures var n, all := Run(es, warmup), es + [e];
            && Run(all, warmup) == Step(n, e, warmup)
            && JournalEvents(all, warmup) == JournalEvents(es, warmup) + OnJournal(n, e, warmup)
            && (e.CrashDuring? || e.Restart? ==> !Syncing(all) && Uses(all) == [] && NewHeads(all) == 0)
            && (e.Head? && e.seen.mining ==>
                  && (Syncing(all) <==> Syncing(es))
                  && Uses(all) == Uses(es) + (if LooksUp(es, e.seen) then [e.head] else [])
                  && NewHeads(all) == NewHeads(es) + (if LooksUp(es, e.seen) && NotSeen(es, e.head) then 1 else 0))
  {
    hide Step, OnJournal, LooksUp, NotSeen;
    assert (es + [e])[..|es|] == es;
  }

  /** A ready call for a head that was not looked up yet counts, and it is journalled once the
      warm-up is over and the rules allow. */
  lemma HeadStep(es: seq<Event>, head: Block, warmup: nat)
    requires !Syncing(es) && head !in Uses(es)
    ensures var all := es + [Head(head, READY)];
            && !Syncing(all) && Uses(all) == Uses(es) + [head]
            && NewHeads(all) == NewHeads(es) + 1
            && JournalEvents(all, warmup) ==
               JournalEvents(es, warmup) +
               (if NewHeads(es) >= warmup && Signs(Run(es, warmup).producer.journal, head, READY)
                then [Runs.Persist(ComposeVote(head), Stored)] else [])
  {
    hide Run, Syncing, Uses, NewHeads, JournalEvents, NewHead, UnderRules, Persists, Sent, Written, SnapshotVote;
    Appended(es, Head(head, READY), warmup);
    PersistsExactly(es, head, READY, warmup);
  }

  ghost predicate JustStarted(es: seq<Event>) {
    !Syncing(es) && Uses(es) == [] && NewHeads(es) == 0
  }

  lemma CrashStep(es: seq<Event>, head: Block, residue: Residue, warmup: nat)
    requires !Syncing(es) && head !in Uses(es)
    requires NewHeads(es) >= warmup && Signs(Run(es, warmup).producer.journal, head, READY)
    ensures var all := es + [CrashDuring(head, READY, residue)];
            && JustStarted(all)
            && JournalEvents(all, warmup) == JournalEvents(es, warmup) + [Runs.CrashDuring(ComposeVote(head), residue)]
  {
    hide Run, Syncing, Uses, NewHeads, JournalEvents, NewHead, UnderRules, Persists, Load, SnapshotVote;
    Appended(es, CrashDuring(head, READY, residue), warmup);
    PersistsExactly(es, head, READY, warmup);
  }

  lemma RestartStep(es: seq<Event>, warmup: nat)
    ensures JustStarted(es + [Restart])
    ensures JournalEvents(es + [Restart], warmup) == JournalEvents(es, warmup) + [Runs.Restart]
  {
    hide Run, Syncing, Uses, NewHeads, JournalEvents, Load;
    Appended(es, Restart, warmup);
  }

  // ----- heads one after the other -----

  /** The heads after the warm-up. */
  function Voted(hs: seq<Block>, warmup: nat): seq<Block> {
    if |hs| <= warmup then [] else hs[warmup..]
  }

  ghost predicate Served(votes: seq<VoteData>) {
    Bounds.Serve(votes).accepted == votes
  }

  lemma HeadsAppend(hs: seq<Block>, head: Block)
    ensures Heads(hs + [head]) == Heads(hs) + [Head(head, READY)]
    ensures Composed(hs + [head]) == Composed(hs) + [ComposeVote(head)]
  {
    hide ComposeVote;
  }

  lemma VotedAppend(hs: seq<Block>, head: Block, warmup: nat)
    ensures Voted(hs + [head], warmup) == if |hs| < warmup then [] else Voted(hs, warmup) + [head]
  {
  }

  lemma StoreAllAppend(votes: seq<VoteData>, v: VoteData)
    ensures Bounds.StoreAll(votes + [v]) == Bounds.StoreAll(votes) + [Runs.Persist(v, Stored)]
  {
  }

  /** The journal has served the votes so far, so it admits the next one. */
  lemma NextVoteSigns(j: Journal, votes: seq<VoteData>, head: Block)
    requires j == Runs.Run(Bounds.StoreAll(votes)).journal
    requires Served(votes + [ComposeVote(head)])
    ensures Served(votes) && Signs(j, head, READY)
  {
    hide Runs.Run, Bounds.StoreAll, Bounds.Serve, ComposeVote, UnderRules;
    Bounds.ServedPrefix(votes, ComposeVote(head));
    Bounds.StoredRunServes(votes);
  }

  lemma ServedInit(hs: seq<Block>, head: Block, warmup: nat)
    requires Served(Composed(Voted(hs + [head], warmup)))
    ensures Served(Composed(Voted(hs, warmup)))
  {
    hide Bounds.Serve, Composed, Voted;
    VotedAppend(hs, head, warmup);
    if |hs| >= warmup {
      HeadsAppend(Voted(hs, warmup), head);
      Bounds.ServedPrefix(Composed(Voted(hs, warmup)), ComposeVote(head));
    } else {
      NoneVoted(hs, warmup);
    }
  }

  lemma NoneVoted(hs: seq<Block>, warmup: nat)
    requires |hs| <= warmup
    ensures Voted(hs, warmup) == [] && Composed([]) == [] && Bounds.StoreAll([]) == [] && Served([])
  {
  }

  /** Each new head counts, and after the warm-up each is voted for. */
  lemma {:induction false} HeadsRun(hs: seq<Block>, warmup: nat)
    requires Different(hs) && Served(Composed(Voted(hs, warmup)))
    ensures !Syncing(Heads(hs))
    ensures Uses(Heads(hs)) == hs
    ensures NewHeads(Heads(hs)) == |hs|
    ensures JournalEvents(Heads(hs), warmup) == Bounds.StoreAll(Composed(Voted(hs, warmup)))
  {
    if |hs| == 0 {
      NoneVoted(hs, warmup);
    } else {
      hide Heads, Voted, Composed, Served, Bounds.StoreAll, Run, Syncing, Uses, NewHeads, JournalEvents, Signs;
      hide ComposeVote, Runs.Run;
      var init, head := hs[..|hs| - 1], hs[|hs| - 1];
      assert hs == init + [head];
      HeadsAppend(init, head);
      VotedAppend(init, head, warmup);
      ServedInit(init, head, warmup);
      HeadsRun(init, warmup);
      HeadStep(Heads(init), head, warmup);
      ProducerRefinesJournal(Heads(init), warmup);
      var votes := Composed(Voted(init, warmup));
      if |init| >= warmup {
        HeadsAppend(Voted(init, warmup), head);
        StoreAllAppend(votes, ComposeVote(head));
        NextVoteSigns(Run(Heads(init), warmup).producer.journal, votes, head);
      } else {
        NoneVoted(init, warmup);
      }
    }
  }

  /** Different heads whose votes the journal serves are all voted for after the warm-up. */
  lemma ProducerSendsAll(hs: seq<Block>, warmup: nat, reach: nat)
    requires Different(hs) && Served(Composed(Voted(hs, warmup)))
    ensures Runs.Legal(Bounds.StoreAll(Composed(Voted(hs, warmup))), reach) ==> Legal(Heads(hs), warmup, reach)
    ensures AllStartedClean(Heads(hs), warmup)
    ensures Run(Heads(hs), warmup).sent == Composed(Voted(hs, warmup))
  {
    hide Heads, Voted, Composed, Bounds.StoreAll, Bounds.Serve, Run, JournalEvents;
    hide Runs.Run, Runs.Legal, Runs.StartedClean;
    HeadsRun(hs, warmup);
    ProducerRefinesJournal(Heads(hs), warmup);
    Bounds.StoredRunServes(Composed(Voted(hs, warmup)));
    assert StartedClean(Heads(hs), warmup) == Runs.StartedClean(Bounds.StoreAll(Composed(Voted(hs, warmup))));
  }

  // ----- heads voted for on torn lines -----

  lemma {:induction false} WarmUp(es: seq<Event>, warm: seq<Block>, warmup: nat)
    requires JustStarted(es) && Different(warm) && |warm| <= warmup
    ensures var all := es + Heads(warm);
            && !Syncing(all) && Uses(all) == warm
            && NewHeads(all) == |warm| && JournalEvents(all, warmup) == JournalEvents(es, warmup)
  {
    if |warm| == 0 {
      assert es + Heads(warm) == es;
    } else {
      hide Heads, Run, Syncing, Uses, NewHeads, JournalEvents, Signs, ComposeVote, JustStarted;
      var init, head := warm[..|warm| - 1], warm[|warm| - 1];
      assert warm == init + [head];
      WarmUp(es, init, warmup);
      HeadsAppend(init, head);
      assert es + Heads(warm) == (es + Heads(init)) + [Head(head, READY)];
      HeadStep(es + Heads(init), head, warmup);
    }
  }

  /** Warm-up and a crash that tears the line, then warm-up, the vote and a restart. */
  function TornHead(head: Block, warm: seq<Block>): seq<Event> {
    Heads(warm) + [CrashDuring(head, READY, PartOfLine)] + Heads(warm) + [Head(head, READY)] + [Restart]
  }

  lemma EmptyJournalSigns(j: Journal, head: Block)
    requires j.lru == EMPTY_LRU
    ensures Signs(j, head, READY)
  {
    hide UnderRules, ComposeVote;
    Bounds.NothingKnownPasses(ComposeVote(head));
  }

  lemma TornHeadRun(es: seq<Event>, head: Block, warm: seq<Block>, warmup: nat)
    requires JustStarted(es) && Different(warm) && |warm| == warmup && head !in warm
    requires Bounds.Blankened(Runs.Run(JournalEvents(es, warmup)))
    ensures JustStarted(es + TornHead(head, warm))
    ensures JournalEvents(es + TornHead(head, warm), warmup) ==
            JournalEvents(es, warmup) + Bounds.TornVote(ComposeVote(head))
  {
    hide Heads, Run, Runs.Run, Runs.Step, Syncing, Uses, NewHeads, JournalEvents, Signs, ComposeVote;
    var v := ComposeVote(head);
    var crash := Runs.CrashDuring(v, PartOfLine);
    var es1 := es + Heads(warm);
    WarmUp(es, warm, warmup);
    ProducerRefinesJournal(es1, warmup);
    EmptyJournalSigns(Run(es1, warmup).producer.journal, head);
    CrashStep(es1, head, PartOfLine, warmup);
    var es2 := es1 + [CrashDuring(head, READY, PartOfLine)];
    var es3 := es2 + Heads(warm);
    WarmUp(es2, warm, warmup);
    Bounds.RunAppend(JournalEvents(es, warmup), crash);
    Bounds.TornVoteGoesOut(Runs.Run(JournalEvents(es, warmup)), v);
    ProducerRefinesJournal(es3, warmup);
    EmptyJournalSigns(Run(es3, warmup).producer.journal, head);
    HeadStep(es3, head, warmup);
    RestartStep(es3 + [Head(head, READY)], warmup);
    assert es + TornHead(head, warm) == es3 + [Head(head, READY)] + [Restart];
  }

  function TornHeads(hs: seq<Block>, warm: seq<Block>): seq<Event> {
    if |hs| == 0 then [] else TornHeads(hs[..|hs| - 1], warm) + TornHead(hs[|hs| - 1], warm)
  }

  lemma {:induction false} TornHeadsRun(hs: seq<Block>, warm: seq<Block>, warmup: nat)
    requires Different(warm) && |warm| == warmup && forall h :: h in hs ==> h !in warm
    ensures JustStarted(TornHeads(hs, warm))
    ensures JournalEvents(TornHeads(hs, warm), warmup) == Bounds.TornVotes(Composed(hs))
  {
    if |hs| > 0 {
      hide Run, Syncing, Uses, NewHeads, JournalEvents, ComposeVote, Composed, TornHead, JustStarted;
      hide Runs.Run, Bounds.Blankened;
      var init, head := hs[..|hs| - 1], hs[|hs| - 1];
      assert hs == init + [head];
      TornHeadsRun(init, warm, warmup);
      Bounds.AnythingGoesOnTornLines(Composed(init));
      TornHeadRun(TornHeads(init, warm), head, warm, warmup);
      HeadsAppend(init, head);
      assert Composed(hs)[..|Composed(hs)| - 1] == Composed(init);
    }
  }

  /** On torn lines the producer, too, holds nothing back: after its warm-up it votes for any
      sequence of heads at all. */
  lemma AnyHeadsOnTornLines(hs: seq<Block>, warm: seq<Block>, warmup: nat)
    requires Different(warm) && |warm| == warmup && forall h :: h in hs ==> h !in warm
    ensures Run(TornHeads(hs, warm), warmup).sent == Composed(hs)
    ensures Runs.Legal(Bounds.TornVotes(Composed(hs)), REACH) ==> Legal(TornHeads(hs, warm), warmup, REACH)
  {
    hide Run, Runs.Run, Runs.Legal, JournalEvents, TornHeads, Composed, Bounds.TornVotes;
    TornHeadsRun(hs, warm, warmup);
    ProducerRefinesJournal(TornHeads(hs, warm), warmup);
    Bounds.AnythingGoesOnTornLines(Composed(hs));
  }

  lemma {:induction false} TornHeadsMembers(hs: seq<Block>, warm: seq<Block>)
    ensures forall e :: e in TornHeads(hs, warm) && e.Head? ==> e.head in warm || e.head in hs
  {
    if |hs| > 0 {
      TornHeadsMembers(hs[..|hs| - 1], warm);
      assert forall e :: e in Heads(warm) ==> e.Head? && e.head in warm;
    }
  }
}
