/** Runs of the vote producer over heads, downloader changes, crashes and restarts. */
module ProducerRuns {
  import opened Chain
  import opened Lru
  import opened VoteJournal
  import opened Snapshots
  import opened VoteProducer
  import opened JournalHistory
  import opened Finality
  import Runs = JournalRuns

  datatype Event =
    | Head(head: Block, seen: Observed)
    | CrashDuring(head: Block, seen: Observed, residue: Residue)
    | Downloader(active: bool)
    | Restart

  datatype Node = Node(producer: Producer, sent: seq<VoteData>)

  function Started(d: Disk): Producer {
    Producer(true, 0, [], Journal(Load(d), d))
  }

  function Step(n: Node, e: Event, warmup: nat): Node {
    match e
    case Head(head, o) =>
      var vote := Sent(n.producer, head, o, warmup);
      Node(Handled(n.producer, head, o, warmup), if vote.Some? then n.sent + [vote.value] else n.sent)
    case CrashDuring(head, o, residue) =>
      n.(producer := Started(
           if Persists(n.producer, head, o, warmup) then Leave(n.producer.journal.disk, ComposeVote(head), residue)
           else n.producer.journal.disk))
    case Downloader(active) => n.(producer := n.producer.(startVote := !active))
    case Restart => n.(producer := Started(n.producer.journal.disk))
  }

  function Run(es: seq<Event>, warmup: nat): Node {
    if |es| == 0 then Node(Started(Disk([], Clean)), [])
    else Step(Run(es[..|es| - 1], warmup), es[|es| - 1], warmup)
  }

  // ----- the journal below the producer -----

  /** What one event does to the journal. */
  function OnJournal(n: Node, e: Event, warmup: nat): seq<Runs.Event> {
    match e
    case Head(head, o) =>
      if Persists(n.producer, head, o, warmup) then [Runs.Persist(ComposeVote(head), o.io)] else []
    case CrashDuring(head, o, residue) =>
      if Persists(n.producer, head, o, warmup) then [Runs.CrashDuring(ComposeVote(head), residue)] else [Runs.Restart]
    case Downloader(_) => []
    case Restart => [Runs.Restart]
  }

  function JournalEvents(es: seq<Event>, warmup: nat): seq<Runs.Event> {
    if |es| == 0 then []
    else
      var init := es[..|es| - 1];
      JournalEvents(init, warmup) + OnJournal(Run(init, warmup), es[|es| - 1], warmup)
  }

  lemma RunAppend(es: seq<Runs.Event>, e: Runs.Event)
    ensures Runs.Run(es + []) == Runs.Run(es)
    ensures Runs.Run(es + [e]) == Runs.Step(Runs.Run(es), e)
  {
    assert es + [] == es;
    assert (es + [e])[..|es|] == es;
  }

  lemma EmptyJournal()
    ensures Load(Disk([], Clean)) == EMPTY_LRU
  {
  }

  lemma StepRefines(s: Runs.System, n: Node, e: Event, warmup: nat)
    requires s.journal == n.producer.journal && s.broadcast == n.sent
    ensures var es := OnJournal(n, e, warmup);
            var s' := if es == [] then s else Runs.Step(s, es[0]);
            s'.journal == Step(n, e, warmup).producer.journal && s'.broadcast == Step(n, e, warmup).sent
  {
    hide UnderRules, Added, Load, NewHead, SourceKnown, ComposeVote, AppendLine, Leave;
  }

  /** Every producer run is a journal run that sends the same votes. */
  lemma {:induction false} ProducerRefinesJournal(es: seq<Event>, warmup: nat)
    ensures Runs.Run(JournalEvents(es, warmup)).journal == Run(es, warmup).producer.journal
    ensures Runs.Run(JournalEvents(es, warmup)).broadcast == Run(es, warmup).sent
  {
    if |es| == 0 {
      EmptyJournal();
    } else {
      hide Step, OnJournal, Runs.Run, Runs.Step;
      var init, last := es[..|es| - 1], es[|es| - 1];
      ProducerRefinesJournal(init, warmup);
      var below := JournalEvents(init, warmup);
      StepRefines(Runs.Run(below), Run(init, warmup), last, warmup);
      var more := OnJournal(Run(init, warmup), last, warmup);
      assert |more| <= 1 by { AtMostOne(Run(init, warmup), last, warmup); }
      if more == [] {
        assert below + more == below;
      } else {
        assert more == [more[0]];
        RunAppend(below, more[0]);
      }
    }
  }

  lemma AtMostOne(n: Node, e: Event, warmup: nat)
    ensures |OnJournal(n, e, warmup)| <= 1
  {
  }

  /** Each append is at most `reach` below the highest target signed before. */
  ghost predicate Legal(es: seq<Event>, warmup: nat, reach: nat) {
    Runs.Legal(JournalEvents(es, warmup), reach)
  }

  /** For each vote that left the node, whether its append began on a complete line. */
  function StartedClean(es: seq<Event>, warmup: nat): (clean: seq<bool>)
    ensures |clean| == |Run(es, warmup).sent|
  {
    ProducerRefinesJournal(es, warmup);
    Runs.StartedClean(JournalEvents(es, warmup))
  }

  ghost predicate AllStartedClean(es: seq<Event>, warmup: nat) {
    forall i :: 0 <= i < |StartedClean(es, warmup)| ==> StartedClean(es, warmup)[i]
  }

  /** No vote conflicts with an earlier one whose append began on a complete line. */
  lemma SentVotesNeverConflict(es: seq<Event>, warmup: nat, i: int, j: int)
    requires Legal(es, warmup, REACH) && 0 <= i < j < |Run(es, warmup).sent| && StartedClean(es, warmup)[i]
    ensures var a, b := Run(es, warmup).sent[i], Run(es, warmup).sent[j];
            && a.targetNumber != b.targetNumber
            && (a.sourceNumber < a.targetNumber && Runs.Surrounds(b, a) ==>
                  b.targetNumber > a.targetNumber + MALICIOUS_VOTE_SLASH_SCOPE)
            && (Runs.Surrounds(a, b) ==> a.targetNumber > b.targetNumber + UPPER_LIMIT_OF_VOTE_BLOCK_NUMBER)
  {
    ProducerRefinesJournal(es, warmup);
    Runs.BroadcastVotesNeverConflict(JournalEvents(es, warmup), i, j);
  }

  ghost predicate SawHead(es: seq<Event>, head: Block) {
    exists i :: 0 <= i < |es| && es[i].Head? && es[i].head == head
  }

  lemma {:induction false} SentVotesAreComposed(es: seq<Event>, warmup: nat, data: VoteData)
    requires data in Run(es, warmup).sent
    ensures exists h :: SawHead(es, h) && data == ComposeVote(h)
  {
    var init, last := es[..|es| - 1], es[|es| - 1];
    if data in Run(init, warmup).sent {
      SentVotesAreComposed(init, warmup, data);
      var h :| SawHead(init, h) && data == ComposeVote(h);
      var i :| 0 <= i < |init| && init[i].Head? && init[i].head == h;
      assert es[i] == init[i];
      assert SawHead(es, h);
    } else {
      assert SawHead(es, last.head);
    }
  }

  /** A node that runs the producer on valid heads and never sends a vote it appended to a torn
      line is honest in the finality argument. */
  lemma ProducerIsHonest(w: Network, v: nat, es: seq<Event>, warmup: nat, reach: nat)
    requires Legal(es, warmup, reach) && AllStartedClean(es, warmup)
    requires v in w.cast && w.cast[v] == Run(es, warmup).sent
    requires forall i :: 0 <= i < |es| && es[i].Head? ==> es[i].head.Child? && Valid(w, es[i].head)
    ensures HonestWithin(w, v, reach)
  {
    hide Run, Runs.Run, Runs.Legal, Runs.StartedClean, ComposeVote, Valid, JournalEvents;
    ProducerRefinesJournal(es, warmup);
    var below := JournalEvents(es, warmup);
    assert StartedClean(es, warmup) == Runs.StartedClean(below);
    assert Runs.Legal(below, reach) && Runs.AllStartedClean(below) && Runs.Run(below).broadcast == w.cast[v];
    forall data | data in w.cast[v]
      ensures exists h: Block :: h.Child? && Valid(w, h) && data == ComposeVote(h)
    {
      SentVotesAreComposed(es, warmup, data);
      var h: Block :| SawHead(es, h) && data == ComposeVote(h);
    }
  }

  // ----- when every line stays complete -----

  /** What an interrupted or failed append leaves is either nothing or the whole line. */
  predicate LeavesLines(e: Event) {
    match e
    case Head(_, o) => o.io.WriteFailed? ==> o.io.residue.RolledBack? || o.io.residue.WholeLine?
    case CrashDuring(_, _, residue) => residue.RolledBack? || residue.WholeLine?
    case Downloader(_) => true
    case Restart => true
  }

  lemma {:induction false} JournalEventsLeaveLines(es: seq<Event>, warmup: nat)
    requires forall i :: 0 <= i < |es| ==> LeavesLines(es[i])
    ensures forall k :: 0 <= k < |JournalEvents(es, warmup)| ==> Runs.LeavesLines(JournalEvents(es, warmup)[k])
  {
    if |es| > 0 {
      hide Run, Persists;
      JournalEventsLeaveLines(es[..|es| - 1], warmup);
      assert LeavesLines(es[|es| - 1]);
    }
  }

  /** If rollbacks succeed and crashes tear no line, every sent vote began on a complete line. */
  lemma LinesStayComplete(es: seq<Event>, warmup: nat)
    requires forall i :: 0 <= i < |es| ==> LeavesLines(es[i])
    ensures AllStartedClean(es, warmup)
  {
    hide JournalEvents, Runs.StartedClean, Runs.Run, Run, Runs.LeavesLines;
    JournalEventsLeaveLines(es, warmup);
    Runs.LinesStayComplete(JournalEvents(es, warmup));
    assert StartedClean(es, warmup) == Runs.StartedClean(JournalEvents(es, warmup));
  }

  // ----- what the gates have seen -----

  /** The last word from the downloader since the process started. */
  predicate Syncing(es: seq<Event>) {
    |es| > 0 &&
    match es[|es| - 1]
    case Head(_, _) => Syncing(es[..|es| - 1])
    case Downloader(active) => active
    case CrashDuring(_, _, _) => false
    case Restart => false
  }

  /** After `es`, a call that observes `o` looks its head up. */
  predicate LooksUp(es: seq<Event>, o: Observed) {
    o.mining && !Syncing(es) && o.luban && o.signer
  }

  /** Heads looked up since the process started. */
  function Uses(es: seq<Event>): seq<Block> {
    if |es| == 0 then []
    else
      var init, last := es[..|es| - 1], es[|es| - 1];
      match last
      case Head(head, o) => Uses(init) + (if LooksUp(init, o) then [head] else [])
      case Downloader(_) => Uses(init)
      case CrashDuring(_, _, _) => []
      case Restart => []
  }

  /** The head was not looked up, or 2048 other heads were since. */
  ghost predicate NotSeen(es: seq<Event>, head: Block) {
    head !in Uses(es) || |UsedSince(Uses(es), head)| >= 2048
  }

  /** New heads since the process started or last saw mining disabled. */
  ghost function NewHeads(es: seq<Event>): nat {
    if |es| == 0 then 0
    else
      var init, last := es[..|es| - 1], es[|es| - 1];
      match last
      case Head(head, o) =>
        if !o.mining then 0 else NewHeads(init) + (if LooksUp(init, o) && NotSeen(init, head) then 1 else 0)
      case Downloader(_) => NewHeads(init)
      case CrashDuring(_, _, _) => 0
      case Restart => 0
  }

  lemma {:induction false} SwitchIsExact(es: seq<Event>, warmup: nat)
    ensures Run(es, warmup).producer.startVote <==> !Syncing(es)
  {
    if |es| > 0 {
      hide NewHead, Persists, Sent, Load;
      SwitchIsExact(es[..|es| - 1], warmup);
    }
  }

  lemma LooksUpExactly(es: seq<Event>, o: Observed, warmup: nat)
    ensures ReachesDedup(Run(es, warmup).producer, o) <==> LooksUp(es, o)
  {
    hide Run, Syncing;
    SwitchIsExact(es, warmup);
  }

  // ----- the heads already handled -----

  lemma HeadIsUsed(uses: seq<Block>, p: Producer, head: Block, o: Observed, warmup: nat)
    requires p.produced == Take(Recency(uses), PRODUCED_CAPACITY) && ReachesDedup(p, o)
    ensures Handled(p, head, o, warmup).produced == Take(Recency(uses + [head]), PRODUCED_CAPACITY)
  {
    hide Lookup, Put, Got, Persists, Touch;
    assert (uses + [head])[..|uses|] == uses;
    BoundedTouch(Recency(uses), PRODUCED_CAPACITY, head, ());
    if Lookup(p.produced, head).Some? {
      GotIsPut(p.produced, PRODUCED_CAPACITY, head);
      assert Lookup(p.produced, head).value == ();
    }
  }

  lemma {:induction false} ProducedIsRecency(es: seq<Event>, warmup: nat)
    ensures Run(es, warmup).producer.produced == Take(Recency(Uses(es)), PRODUCED_CAPACITY)
  {
    if |es| > 0 {
      hide NewHead, Persists, Sent, Load, Take, Recency, ReachesDedup, LooksUp;
      var init, last := es[..|es| - 1], es[|es| - 1];
      ProducedIsRecency(init, warmup);
      NoUses();
      if last.Head? {
        LooksUpExactly(init, last.seen, warmup);
        if LooksUp(init, last.seen) {
          HeadIsUsed(Uses(init), Run(init, warmup).producer, last.head, last.seen, warmup);
        } else {
          Untouched(Run(init, warmup).producer, last.head, last.seen, warmup);
          assert Uses(init) + [] == Uses(init);
        }
      }
    } else {
      NoUses();
    }
  }

  lemma NoUses()
    ensures Take(Recency<Block>([]), PRODUCED_CAPACITY) == []
  {
  }

  lemma Untouched(p: Producer, head: Block, o: Observed, warmup: nat)
    requires !ReachesDedup(p, o)
    ensures Handled(p, head, o, warmup).produced == p.produced
  {
  }

  lemma NewHeadExactly(es: seq<Event>, head: Block, o: Observed, warmup: nat)
    ensures NewHead(Run(es, warmup).producer, head, o) <==> LooksUp(es, o) && NotSeen(es, head)
  {
    hide Run, Lookup, Take, Recency, UsedSince, Uses, ReachesDedup, LooksUp;
    LooksUpExactly(es, o, warmup);
    ProducedIsRecency(es, warmup);
    RemembersExactly(Uses(es), PRODUCED_CAPACITY, head);
  }

  // ----- the warm-up counter -----

  /** The clamped counter is the real count cut at the threshold. */
  lemma {:induction false} CounterIsExact(es: seq<Event>, warmup: nat)
    ensures Run(es, warmup).producer.blocksSinceMining == Min(NewHeads(es), warmup)
  {
    if |es| > 0 {
      hide NewHead, Persists, Sent, Started, LooksUp, NotSeen;
      var init, last := es[..|es| - 1], es[|es| - 1];
      CounterIsExact(init, warmup);
      FreshCounter(Disk([], Clean));
      if last.Head? {
        NewHeadExactly(init, last.head, last.seen, warmup);
      }
    }
  }

  lemma FreshCounter(d: Disk)
    ensures Started(d).blocksSinceMining == 0
  {
  }

  // ----- exactly when a vote leaves -----

  /** A vote is handed to the journal exactly when mining is on, the downloader is not active,
      Luban is active, a signer is there, the head is new, at least `warmup` new heads came since
      the start or since mining was off, a snapshot and the public key are found, the key is a
      validator's, there is time left, the source is known, the journal's rules allow the vote,
      and signing succeeds. */
  lemma PersistsExactly(es: seq<Event>, head: Block, o: Observed, warmup: nat)
    ensures var p, snap := Run(es, warmup).producer, SnapshotVote(head);
            var source := if snap.targetHash == Zero then 0 else snap.targetNumber;
            Persists(p, head, o, warmup) <==>
            && o.mining && !Syncing(es) && o.luban && o.signer
            && NotSeen(es, head) && NewHeads(es) >= warmup
            && o.snapshot && o.publicKey && o.validator && !o.late
            && (snap.targetHash != Zero || o.genesisCached)
            && UnderRules(p.journal.lru.entries, source, Number(head))
            && o.signed
  {
    hide Run, NewHead, NotSeen, NewHeads, Syncing, UnderRules, SnapshotVote;
    CounterIsExact(es, warmup);
    NewHeadExactly(es, head, o, warmup);
  }

  /** And it leaves the node exactly when, besides, it was stored: the vote from the snapshot's
      target, or from genesis while nothing is justified, to the head. */
  lemma VoteLeavesExactly(es: seq<Event>, head: Block, o: Observed, warmup: nat)
    ensures var n, snap := Run(es, warmup), SnapshotVote(head);
            var vote := if snap.targetHash == Zero then VoteData(0, Of(Genesis), Number(head), Of(head))
                        else VoteData(snap.targetNumber, snap.targetHash, Number(head), Of(head));
            Run(es + [Head(head, o)], warmup).sent ==
            if && o.mining && !Syncing(es) && o.luban && o.signer
               && NotSeen(es, head) && NewHeads(es) >= warmup
               && o.snapshot && o.publicKey && o.validator && !o.late
               && (snap.targetHash != Zero || o.genesisCached)
               && UnderRules(n.producer.journal.lru.entries, vote.sourceNumber, vote.targetNumber)
               && o.signed && o.io == Stored
            then n.sent + [vote] else n.sent
  {
    hide NewHead, NotSeen, NewHeads, Syncing, UnderRules, SnapshotVote, Persists, Handled;
    assert (es + [Head(head, o)])[..|es|] == es;
    PersistsExactly(es, head, o, warmup);
    SentExactly(Run(es, warmup).producer, head, o, warmup);
  }

  lemma SentExactly(p: Producer, head: Block, o: Observed, warmup: nat)
    ensures Sent(p, head, o, warmup) ==
            if Persists(p, head, o, warmup) && o.io == Stored then Some(ComposeVote(head)) else None
  {
    hide UnderRules, ComposeVote, NewHead;
  }

  /** From the downloader's start until its end or a restart nothing is signed, journalled, sent
      or even looked up. */
  lemma {:induction false} SyncingNodeIsSilent(es: seq<Event>, later: seq<Event>, warmup: nat)
    requires Syncing(es) && forall i :: 0 <= i < |later| ==> later[i].Head? || later[i] == Downloader(true)
    ensures var n, n' := Run(es, warmup), Run(es + later, warmup);
            && Syncing(es + later) && n'.sent == n.sent && n'.producer.journal == n.producer.journal
            && n'.producer.produced == n.producer.produced
  {
    if |later| == 0 {
      assert es + later == es;
    } else {
      hide NewHeads, UnderRules, SnapshotVote, Written;
      var init, last := later[..|later| - 1], later[|later| - 1];
      SyncingNodeIsSilent(es, init, warmup);
      assert (es + later)[..|es + later| - 1] == es + init && (es + later)[|es + later| - 1] == last;
      SwitchIsExact(es + init, warmup);
    }
  }
}
