/** How exact the journal's bounds are: the cache against an unbounded journal, the reach
that keeps double votes out, the complete line an append needs, and what a reload rebuilds. */
module JournalBounds {
  import opened Chain
  import opened VoteJournal
  import opened JournalHistory
  import opened JournalRuns

  // ----- a reload after successful writes -----

  ghost predicate OnlySuccessfulWrites(es: seq<Event>) {
    forall i :: 0 <= i < |es| ==> es[i].Restart? || (es[i].Persist? && !es[i].io.WriteFailed?)
  }

  /** With restarts anywhere, the file rebuilds exactly the queue and the map in memory. No
      bound on the targets is needed: a height that left the cache may come back. */
  lemma {:induction false} ReloadRebuildsMemory(es: seq<Event>)
    requires OnlySuccessfulWrites(es)
    ensures Load(Run(es).journal.disk) == Run(es).journal.lru
    ensures Distinct(Recent(Parsed(Run(es).journal.disk)))
    ensures Run(es).journal.lru == Fifo(Parsed(Run(es).journal.disk))
    ensures Run(es).journal.disk.tail.Clean?
  {
    if |es| > 0 {
      var init, e := es[..|es| - 1], es[|es| - 1];
      ReloadRebuildsMemory(init);
      var d := Run(init).journal.disk;
      if Appends(Run(init), e) {
        AppendReadableIffClean(d, e.vote);
        AddExtendsFifo(Parsed(d), e.vote);
        LoadIsFifo(AppendLine(d, e.vote));
      }
    } else {
      LoadIsFifo(INITIAL.journal.disk);
    }
  }

  // ----- one process lifetime against an unbounded journal -----

  datatype Life = Life(lru: LruState, accepted: seq<VoteData>)

  /** What the journal accepts of a sequence of requests. */
  function Serve(vs: seq<VoteData>): Life {
    if |vs| == 0 then Life(EMPTY_LRU, [])
    else
      var l, v := Serve(vs[..|vs| - 1]), vs[|vs| - 1];
      if UnderRules(l.lru.entries, v.sourceNumber, v.targetNumber) then
        Life(Added(l.lru, MAX_RECENT_ENTRIES, v.targetNumber, v), l.accepted + [v])
      else l
  }

  /** What a journal that never forgets accepts. */
  function ServeUnbounded(vs: seq<VoteData>): seq<VoteData> {
    if |vs| == 0 then []
    else
      var accepted, v := ServeUnbounded(vs[..|vs| - 1]), vs[|vs| - 1];
      if UnderRules(ByTarget(accepted), v.sourceNumber, v.targetNumber) then accepted + [v] else accepted
  }

  ghost predicate RequestsInReach(vs: seq<VoteData>, reach: nat) {
    |vs| > 0 ==>
      && RequestsInReach(vs[..|vs| - 1], reach)
      && InReach(ServeUnbounded(vs[..|vs| - 1]), vs[|vs| - 1], reach)
  }

  lemma ServeUnboundedStep(vs: seq<VoteData>, v: VoteData, reach: nat)
    requires RequestsInReach(vs, reach) && InReach(ServeUnbounded(vs), v, reach)
    ensures RequestsInReach(vs + [v], reach)
    ensures ServeUnbounded(vs + [v]) ==
            if UnderRules(ByTarget(ServeUnbounded(vs)), v.sourceNumber, v.targetNumber)
            then ServeUnbounded(vs) + [v] else ServeUnbounded(vs)
  {
    assert (vs + [v])[..|vs|] == vs;
  }

  lemma {:induction false} ServesLikeUnbounded(vs: seq<VoteData>)
    requires RequestsInReach(vs, REACH)
    ensures Serve(vs) == Life(Fifo(ServeUnbounded(vs)), ServeUnbounded(vs))
    ensures Consistent(ServeUnbounded(vs), REACH)
  {
    if |vs| > 0 {
      var init, v := vs[..|vs| - 1], vs[|vs| - 1];
      ServesLikeUnbounded(init);
      var h := ServeUnbounded(init);
      ConsistentIsDistinct(h);
      CacheDecidesForHistory(h, v);
      RulesMeanAdmitsAll(h, v);
      if AdmitsAll(h, v) {
        ConsistentExtends(h, v, REACH);
        AddExtendsFifo(h, v);
      }
    }
  }

  // ----- a run that is one height out of reach -----

  /** A height, then the 256 heights below and the 256 heights above it, then the height again. */
  function SpreadTarget(center: nat, i: nat): int {
    if i == 0 || i == 513 then center else if i <= 256 then center - 257 + i else center - 256 + i
  }

  /** Votes with these targets whose sources do not fall as the targets rise. */
  ghost predicate IsSpread(vs: seq<VoteData>, center: nat) {
    && |vs| == 514
    && (forall i :: 0 <= i < |vs| ==> vs[i].targetNumber == SpreadTarget(center, i))
    && (forall i, j :: 0 <= i < |vs| && 0 <= j < |vs| && vs[i].targetNumber <= vs[j].targetNumber ==>
                         vs[i].sourceNumber <= vs[j].sourceNumber)
  }

  lemma SpreadPair(vs: seq<VoteData>, center: nat, i: nat, j: nat)
    requires |vs| == 514 && IsSpread(vs, center) && i < j < 514
    ensures vs[i].targetNumber <= vs[j].targetNumber + REACH + 1
    ensures i > 0 || j < 513 ==> Admits(vs[i], vs[j])
  {
    assert vs[i].targetNumber == SpreadTarget(center, i) && vs[j].targetNumber == SpreadTarget(center, j);
  }

  lemma SpreadPrefix(vs: seq<VoteData>, center: nat, k: nat)
    requires |vs| == 514 && IsSpread(vs, center) && 0 < k <= 514
    ensures vs[..k] == vs[..k - 1] + [vs[k - 1]] && vs[..k][..k - 1] == vs[..k - 1]
    ensures Distinct(vs[..k - 1]) && Distinct(Recent(vs[..k - 1]))
    ensures InReach(vs[..k - 1], vs[k - 1], REACH + 1)
    ensures AdmitsAll(Recent(vs[..k - 1]), vs[k - 1])
    ensures k <= 513 ==> AdmitsAll(vs[..k - 1], vs[k - 1])
  {
    hide IsSpread;
    forall i, j | 0 <= i < j < k - 1 ensures vs[i].targetNumber != vs[j].targetNumber {
      SpreadPair(vs, center, i, j);
    }
    forall i | 0 <= i < k - 1
      ensures vs[i].targetNumber <= vs[k - 1].targetNumber + REACH + 1
      ensures i > 0 || k <= 513 ==> Admits(vs[i], vs[k - 1])
    {
      SpreadPair(vs, center, i, k - 1);
    }
    hide Admits;
    assert Recent(vs[..k - 1]) == if k <= 513 then vs[..k - 1] else vs[1..513];
  }

  lemma SpreadPasses(vs: seq<VoteData>, center: nat, k: nat)
    requires |vs| == 514 && IsSpread(vs, center) && 0 < k <= 514
    ensures UnderRules(Fifo(vs[..k - 1]).entries, vs[k - 1].sourceNumber, vs[k - 1].targetNumber)
    ensures vs[k - 1].targetNumber !in ByTarget(Recent(vs[..k - 1]))
  {
    hide IsSpread, Admits;
    SpreadPrefix(vs, center, k);
    RulesMeanAdmitsAll(Recent(vs[..k - 1]), vs[k - 1]);
  }

  /** The cache lets all 514 votes through. */
  lemma {:induction false} SpreadServed(vs: seq<VoteData>, center: nat, k: nat)
    requires |vs| == 514 && IsSpread(vs, center) && k <= 514
    ensures Serve(vs[..k]) == Life(Fifo(vs[..k]), vs[..k])
  {
    if k > 0 {
      hide IsSpread, Recent, UnderRules, Fifo, Added, ByTarget;
      SpreadServed(vs, center, k - 1);
      SpreadPrefix(vs, center, k);
      SpreadPasses(vs, center, k);
      AddExtendsFifo(vs[..k - 1], vs[k - 1]);
    }
  }

  /** A journal that never forgets refuses only the last one. */
  lemma {:induction false} SpreadServedUnbounded(vs: seq<VoteData>, center: nat, k: nat)
    requires |vs| == 514 && IsSpread(vs, center) && k <= 513
    ensures ServeUnbounded(vs[..k]) == vs[..k]
    ensures RequestsInReach(vs[..k], REACH + 1)
  {
    if k > 0 {
      hide IsSpread, UnderRules, ByTarget;
      SpreadServedUnbounded(vs, center, k - 1);
      SpreadPrefix(vs, center, k);
      RulesMeanAdmitsAll(vs[..k - 1], vs[k - 1]);
      ServeUnboundedStep(vs[..k - 1], vs[k - 1], REACH + 1);
    }
  }

  lemma SpreadDisagrees(vs: seq<VoteData>, center: nat)
    requires IsSpread(vs, center)
    ensures RequestsInReach(vs, REACH + 1)
    ensures Serve(vs).accepted != ServeUnbounded(vs)
  {
    hide Serve, ServeUnbounded, RequestsInReach, ByTarget, UnderRules, Recent, InReach, Admits;
    SpreadPrefix(vs, center, 514);
    SpreadServed(vs, center, 514);
    SpreadServedUnbounded(vs, center, 513);
    var before := vs[..513];
    ByTargetContents(before);
    assert before[0].targetNumber == vs[513].targetNumber;
    KnownHeightIsRefused(ByTarget(before), vs[513]);
    ServeUnboundedStep(before, vs[513], REACH + 1);
    assert vs[..514] == vs;
  }

  lemma KnownHeightIsRefused(entries: map<nat, VoteData>, v: VoteData)
    requires v.targetNumber in entries
    ensures !UnderRules(entries, v.sourceNumber, v.targetNumber)
  {
  }

  lemma PlainSpread() returns (vs: seq<VoteData>)
    ensures IsSpread(vs, 300)
  {
    vs := seq(514, i requires 0 <= i < 514 => VoteData(0, Zero, SpreadTarget(300, i), Zero));
  }

  /** The 512-entry journal decides as an unbounded one on all requests in reach exactly up
      to a reach of 255. */
  lemma UnboundedExactlyUpTo255(reach: nat)
    ensures (forall vs :: RequestsInReach(vs, reach) ==> Serve(vs).accepted == ServeUnbounded(vs)) <==> reach <= REACH
  {
    if reach <= REACH {
      forall vs | RequestsInReach(vs, reach) ensures Serve(vs).accepted == ServeUnbounded(vs) {
        RequestsInReachMonotone(vs, reach, REACH);
        ServesLikeUnbounded(vs);
      }
    } else {
      var vs := PlainSpread();
      SpreadDisagrees(vs, 300);
      RequestsInReachMonotone(vs, REACH + 1, reach);
    }
  }

  lemma {:induction false} RequestsInReachMonotone(vs: seq<VoteData>, r: nat, r': nat)
    requires RequestsInReach(vs, r) && r <= r'
    ensures RequestsInReach(vs, r')
  {
    if |vs| > 0 {
      RequestsInReachMonotone(vs[..|vs| - 1], r, r');
    }
  }

  lemma {:induction false} ServesAtMost(vs: seq<VoteData>)
    ensures |Serve(vs).accepted| <= |vs|
  {
    if |vs| > 0 {
      ServesAtMost(vs[..|vs| - 1]);
    }
  }

  /** If a whole sequence is served, so is each prefix, and the next vote passes after it. */
  lemma ServedPrefix(vs: seq<VoteData>, v: VoteData)
    requires Serve(vs + [v]).accepted == vs + [v]
    ensures Serve(vs).accepted == vs
    ensures UnderRules(Serve(vs).lru.entries, v.sourceNumber, v.targetNumber)
  {
    hide UnderRules;
    assert (vs + [v])[..|vs|] == vs;
    ServesAtMost(vs);
  }

  // ----- the same bound for double votes -----

  function StoreAll(vs: seq<VoteData>): seq<Event> {
    seq(|vs|, i requires 0 <= i < |vs| => Persist(vs[i], Stored))
  }

  /** Without failures and restarts a run is one lifetime. */
  lemma {:induction false} StoredRunServes(vs: seq<VoteData>)
    ensures Run(StoreAll(vs)).journal.lru == Serve(vs).lru
    ensures Run(StoreAll(vs)).broadcast == Run(StoreAll(vs)).signed == Serve(vs).accepted
    ensures Run(StoreAll(vs)).journal.disk.tail.Clean? && AllStartedClean(StoreAll(vs))
  {
    if |vs| > 0 {
      StoredRunServes(vs[..|vs| - 1]);
      assert StoreAll(vs)[..|vs| - 1] == StoreAll(vs[..|vs| - 1]);
    }
  }

  lemma LegalAppend(es: seq<Event>, e: Event, reach: nat)
    requires Legal(es, reach) && LegalStep(Run(es), e, reach)
    ensures Legal(es + [e], reach)
  {
    assert (es + [e])[..|es|] == es;
  }

  lemma SpreadStepLegal(vs: seq<VoteData>, center: nat, k: nat)
    requires |vs| == 514 && IsSpread(vs, center) && 0 < k <= 514
    ensures LegalStep(Run(StoreAll(vs[..k - 1])), Persist(vs[k - 1], Stored), REACH + 1)
  {
    hide IsSpread, Serve, Run, StoreAll, UnderRules, Fifo;
    SpreadPrefix(vs, center, k);
    SpreadServed(vs, center, k - 1);
    StoredRunServes(vs[..k - 1]);
  }

  lemma StoreAllPrefix(vs: seq<VoteData>, k: nat)
    requires k <= |vs|
    ensures if k == 0 then StoreAll(vs[..k]) == [] && Legal([], REACH + 1)
            else StoreAll(vs[..k]) == StoreAll(vs[..k - 1]) + [Persist(vs[k - 1], Stored)]
  {
  }

  lemma {:induction false} SpreadPrefixIsLegal(vs: seq<VoteData>, center: nat, k: nat)
    requires |vs| == 514 && IsSpread(vs, center) && k <= 514
    ensures Legal(StoreAll(vs[..k]), REACH + 1)
  {
    hide IsSpread, LegalStep, Run, Legal, StoreAll;
    StoreAllPrefix(vs, k);
    if k > 0 {
      SpreadPrefixIsLegal(vs, center, k - 1);
      SpreadStepLegal(vs, center, k);
      LegalAppend(StoreAll(vs[..k - 1]), Persist(vs[k - 1], Stored), REACH + 1);
    }
  }

  /** One height out of reach, the journal broadcasts two votes for the middle height. */
  lemma SpreadIsARun(vs: seq<VoteData>, center: nat)
    requires IsSpread(vs, center)
    ensures Serve(vs).accepted == vs
    ensures Legal(StoreAll(vs), REACH + 1) && AllStartedClean(StoreAll(vs)) && Run(StoreAll(vs)).broadcast == vs
  {
    hide Run, Legal, Serve, StoreAll, Fifo, AllStartedClean;
    assert vs[..514] == vs;
    SpreadPrefixIsLegal(vs, center, 514);
    SpreadServed(vs, center, 514);
    StoredRunServes(vs);
  }

  lemma {:induction false} LegalMonotone(es: seq<Event>, r: nat, r': nat)
    requires Legal(es, r) && r <= r'
    ensures Legal(es, r')
  {
    if |es| > 0 {
      LegalMonotone(es[..|es| - 1], r, r');
    }
  }

  /** No vote shares its height with an earlier one whose append began on a complete line. */
  ghost predicate CleanVotesAreUnique(es: seq<Event>) {
    forall i, j :: 0 <= i < j < |Run(es).broadcast| && StartedClean(es)[i] ==>
                     Run(es).broadcast[i].targetNumber != Run(es).broadcast[j].targetNumber
  }

  /** Over all runs, this holds exactly up to a reach of 255. */
  lemma NoDoubleVoteExactlyUpTo255(reach: nat)
    ensures (forall es :: Legal(es, reach) ==> CleanVotesAreUnique(es)) <==> reach <= REACH
  {
    hide Run, Legal, StartedClean;
    if reach <= REACH {
      forall es | Legal(es, reach) ensures CleanVotesAreUnique(es) {
        LegalMonotone(es, reach, REACH);
        forall i, j | 0 <= i < j < |Run(es).broadcast| && StartedClean(es)[i]
          ensures Run(es).broadcast[i].targetNumber != Run(es).broadcast[j].targetNumber
        {
          BroadcastVotesNeverConflict(es, i, j);
        }
      }
    } else {
      var vs := PlainSpread();
      var es := StoreAll(vs);
      SpreadIsARun(vs, 300);
      LegalMonotone(es, REACH + 1, reach);
      assert StartedClean(es)[0] && vs[0].targetNumber == vs[513].targetNumber;
      assert Legal(es, reach) && !CleanVotesAreUnique(es);
    }
  }

  lemma ConsistentLast(h: seq<VoteData>, init: seq<VoteData>, v: VoteData)
    requires Consistent(h, REACH) && h == init + [v]
    ensures Consistent(init, REACH) && AdmitsAll(init, v) && InReach(init, v, REACH)
    ensures Distinct(init) && Distinct(Recent(init))
    ensures UnderRules(Fifo(init).entries, v.sourceNumber, v.targetNumber)
  {
    forall i, j | 0 <= i < j < |init|
      ensures Admits(init[i], init[j]) && init[i].targetNumber <= init[j].targetNumber + REACH
    {
      assert init[i] == h[i] && init[j] == h[j];
    }
    forall i | 0 <= i < |init| ensures Admits(init[i], v) && init[i].targetNumber <= v.targetNumber + REACH {
      assert init[i] == h[i] && v == h[|init|];
    }
    ConsistentIsDistinct(init);
    CacheDecidesForHistory(init, v);
  }

  lemma {:induction false} ConsistentHistoryIsServed(h: seq<VoteData>)
    requires Consistent(h, REACH)
    ensures Serve(h) == Life(Fifo(h), h)
  {
    if |h| > 0 {
      var init, v := h[..|h| - 1], h[|h| - 1];
      assert init + [v] == h;
      ConsistentLast(h, init, v);
      ConsistentHistoryIsServed(init);
      AddExtendsFifo(init, v);
    }
  }

  lemma {:induction false} ConsistentHistoryIsLegal(h: seq<VoteData>)
    requires Consistent(h, REACH)
    ensures Legal(StoreAll(h), REACH)
  {
    if |h| > 0 {
      var init, v := h[..|h| - 1], h[|h| - 1];
      assert init + [v] == h;
      ConsistentLast(h, init, v);
      ConsistentHistoryIsLegal(init);
      assert LegalStep(Run(StoreAll(init)), Persist(v, Stored), REACH) by {
        ConsistentHistoryIsServed(init);
        StoredRunServes(init);
      }
      LegalAppend(StoreAll(init), Persist(v, Stored), REACH);
      assert StoreAll(h) == StoreAll(init) + [Persist(v, Stored)];
    }
  }

  /** Every consistent history is what some legal run broadcasts: the rules refuse no more
      than they have to. */
  lemma ConsistentHistoryIsARun(h: seq<VoteData>)
    requires Consistent(h, REACH)
    ensures Legal(StoreAll(h), REACH) && AllStartedClean(StoreAll(h)) && Run(StoreAll(h)).broadcast == h
  {
    ConsistentHistoryIsLegal(h);
    ConsistentHistoryIsServed(h);
    StoredRunServes(h);
  }

  // ----- the complete last line is needed too -----

  lemma RunAppend(es: seq<Event>, e: Event)
    ensures Run(es + [e]) == Step(Run(es), e)
    ensures StartedClean(es + [e]) ==
            StartedClean(es) + (if Broadcasts(Run(es), e) then [Run(es).journal.disk.tail.Clean?] else [])
  {
    assert (es + [e])[..|es|] == es;
  }

  lemma {:induction false} RunExtends(es: seq<Event>, later: seq<Event>)
    ensures Run(es).broadcast <= Run(es + later).broadcast
    ensures StartedClean(es) <= StartedClean(es + later)
  {
    hide Step, Run, StartedClean, Broadcasts;
    if |later| == 0 {
      assert es + later == es;
    } else {
      var init, e := later[..|later| - 1], later[|later| - 1];
      RunExtends(es, init);
      assert es + later == (es + init) + [e];
      RunAppend(es + init, e);
      StepBroadcast(Run(es + init), e);
    }
  }

  /** The file after a whole line was appended to a torn one. */
  function Glued(d: Disk): Disk {
    Disk(d.lines + [Unparsable], Clean)
  }

  /** A vote written to a torn line, a restart, and another vote. */
  function TornRun(es: seq<Event>, v: VoteData, w: VoteData): seq<Event> {
    es + [Persist(v, Stored)] + [Restart, Persist(w, Stored)]
  }

  lemma TornRunSteps(es: seq<Event>, v: VoteData, w: VoteData)
    ensures TornRun(es, v, w) == ((es + [Persist(v, Stored)]) + [Restart]) + [Persist(w, Stored)]
    ensures Run(TornRun(es, v, w)) == Step(Step(Step(Run(es), Persist(v, Stored)), Restart), Persist(w, Stored))
  {
    hide Run, Step, StartedClean;
    RunAppend(es, Persist(v, Stored));
    RunAppend(es + [Persist(v, Stored)], Restart);
    RunAppend(es + [Persist(v, Stored)] + [Restart], Persist(w, Stored));
    assert TornRun(es, v, w) == ((es + [Persist(v, Stored)]) + [Restart]) + [Persist(w, Stored)];
  }

  /** After any run that ends in a torn line, the next vote is forgotten by a restart: whatever
      the older records admit goes out as well. */
  lemma TornAppendIsForgotten(es: seq<Event>, v: VoteData, w: VoteData)
    requires !Run(es).journal.disk.tail.Clean? && Passes(Run(es), v)
    requires UnderRules(Load(Glued(Run(es).journal.disk)).entries, w.sourceNumber, w.targetNumber)
    ensures Run(TornRun(es, v, w)).broadcast == Run(es).broadcast + [v, w]
  {
    hide Run, StartedClean, UnderRules, Load, Added;
    TornRunSteps(es, v, w);
    var s := Step(Run(es), Persist(v, Stored));
    assert s.journal.disk == Glued(Run(es).journal.disk) && s.broadcast == Run(es).broadcast + [v];
  }

  /** The file holds glued lines only, and the process knows nothing. */
  ghost predicate Blankened(s: System) {
    s.journal.lru == EMPTY_LRU && s.journal.disk.tail.Clean? && Records(s.journal.disk.lines) == []
  }

  lemma EmptyFileLoads(d: Disk)
    requires Records(d.lines) == [] && !d.tail.Unterminated?
    ensures Load(d) == EMPTY_LRU
  {
    RecordsOfTail(d);
  }

  lemma NothingKnownPasses(v: VoteData)
    ensures UnderRules(EMPTY_LRU.entries, v.sourceNumber, v.targetNumber)
  {
  }

  /** A crash that tears the line, the vote, and a restart. */
  function TornVote(v: VoteData): seq<Event> {
    [CrashDuring(v, PartOfLine), Persist(v, Stored), Restart]
  }

  lemma TornVoteGoesOut(s: System, v: VoteData)
    requires Blankened(s)
    ensures var s1 := Step(s, CrashDuring(v, PartOfLine));
            var s3 := Step(Step(s1, Persist(v, Stored)), Restart);
            && Blankened(s3) && s1.signed == s.signed + [v] && s1.journal.lru == EMPTY_LRU
            && s3.broadcast == s.broadcast + [v] && s3.signed == s.signed + [v, v]
  {
    hide UnderRules, Load, Records, Added;
    var d := s.journal.disk;
    NothingKnownPasses(v);
    EmptyFileLoads(d.(tail := Fragment));
    RecordsAppend(d.lines, Unparsable);
    EmptyFileLoads(Glued(d));
    assert Step(Step(s, CrashDuring(v, PartOfLine)), Persist(v, Stored)).journal.disk == Glued(d);
  }

  lemma TornVoteSteps(es: seq<Event>, v: VoteData)
    ensures es + TornVote(v) == ((es + [CrashDuring(v, PartOfLine)]) + [Persist(v, Stored)]) + [Restart]
    ensures Run(es + TornVote(v)) == Step(Step(Step(Run(es), CrashDuring(v, PartOfLine)), Persist(v, Stored)), Restart)
  {
    hide Run, Step, StartedClean;
    var e1, e2 := CrashDuring(v, PartOfLine), Persist(v, Stored);
    RunAppend(es, e1);
    RunAppend(es + [e1], e2);
    RunAppend(es + [e1] + [e2], Restart);
    assert es + TornVote(v) == ((es + [e1]) + [e2]) + [Restart];
  }

  lemma TornVoteIsLegal(es: seq<Event>, v: VoteData)
    requires Legal(es, REACH) && Blankened(Run(es)) && InReach(Run(es).signed, v, REACH)
    ensures Legal(es + TornVote(v), REACH)
  {
    hide Run, Step, Legal, StartedClean, Appends, Blankened;
    var e1, e2 := CrashDuring(v, PartOfLine), Persist(v, Stored);
    TornVoteSteps(es, v);
    TornVoteGoesOut(Run(es), v);
    LegalAppend(es, e1, REACH);
    RunAppend(es, e1);
    LegalAppend(es + [e1], e2, REACH);
    assert LegalStep(Run(es + [e1] + [e2]), Restart, REACH) by { RestartIsLegal(Run(es + [e1] + [e2])); }
    LegalAppend(es + [e1] + [e2], Restart, REACH);
  }

  lemma RestartIsLegal(s: System)
    ensures LegalStep(s, Restart, REACH)
  {
  }

  function TornVotes(vs: seq<VoteData>): seq<Event> {
    if |vs| == 0 then [] else TornVotes(vs[..|vs| - 1]) + TornVote(vs[|vs| - 1])
  }

  /** On torn lines the journal holds nothing back: any sequence of votes at all is broadcast by
      some run. */
  lemma {:induction false} AnythingGoesOnTornLines(vs: seq<VoteData>)
    ensures Run(TornVotes(vs)).broadcast == vs
    ensures Blankened(Run(TornVotes(vs))) && forall v :: v in Run(TornVotes(vs)).signed ==> v in vs
  {
    hide Step, Run, Blankened;
    if |vs| > 0 {
      var init, v := vs[..|vs| - 1], vs[|vs| - 1];
      AnythingGoesOnTornLines(init);
      TornVoteGoesOut(Run(TornVotes(init)), v);
      TornVoteSteps(TornVotes(init), v);
      assert vs == init + [v];
    } else {
      NothingWritten();
    }
  }

  lemma NothingWritten()
    ensures Legal([], REACH) && Run([]) == INITIAL && Blankened(INITIAL)
  {
  }

  lemma {:induction false} TornVotesAreLegal(vs: seq<VoteData>)
    requires forall i, j :: 0 <= i < j < |vs| ==> vs[i].targetNumber <= vs[j].targetNumber + REACH
    ensures Legal(TornVotes(vs), REACH)
  {
    hide Run, Legal, Blankened, TornVote;
    if |vs| > 0 {
      var init, v := vs[..|vs| - 1], vs[|vs| - 1];
      TornVotesAreLegal(init);
      AnythingGoesOnTornLines(init);
      var signed := Run(TornVotes(init)).signed;
      forall i | 0 <= i < |signed| ensures signed[i].targetNumber <= v.targetNumber + REACH {
        assert signed[i] in init;
      }
      TornVoteIsLegal(TornVotes(init), v);
    } else {
      NothingWritten();
    }
  }

  // ----- exactly which votes are never forgotten -----

  /** No vote after the n-th is for its height. */
  ghost predicate NoneForItsHeight(sent: seq<VoteData>, n: nat) {
    n < |sent| && forall j :: n < j < |sent| ==> sent[j].targetNumber != sent[n].targetNumber
  }

  /** No vote after the n-th is a different vote for its height. */
  ghost predicate NoOtherForItsHeight(sent: seq<VoteData>, n: nat) {
    n < |sent| && forall j :: n < j < |sent| && sent[j] != sent[n] ==> sent[j].targetNumber != sent[n].targetNumber
  }

  /** A different vote with the same heights. */
  function Rival(v: VoteData): (w: VoteData)
    ensures w != v && w.sourceNumber == v.sourceNumber && w.targetNumber == v.targetNumber
  {
    v.(targetHash := if v.targetHash == Zero then Of(Genesis) else Zero)
  }

  /** What a reload finds after an append to a torn line admits the appended vote again. */
  lemma GluedFileAdmits(es: seq<Event>, v: VoteData)
    requires Legal(es, REACH) && Passes(Run(es), v) && InReach(Run(es).signed, v, REACH)
    requires !Run(es).journal.disk.tail.Clean?
    ensures UnderRules(Load(Glued(Run(es).journal.disk)).entries, v.sourceNumber, v.targetNumber)
  {
    hide Run, Legal, UnderRules, Records, Fifo, Admits, Within, Load, Recent;
    var d := Run(es).journal.disk;
    var h := InvRun(es);
    AdmittedByHistory(Run(es), h, v);
    RecordsOfTail(d);
    RecordsOfTail(Glued(d));
    RecordsAppend(d.lines, Unparsable);
    var kept := Parsed(Glued(d));
    if d.tail.Unterminated? {
      assert Parsed(d)[..|Parsed(d)| - 1] == kept;
      WithinInit(Parsed(d), h);
    }
    assert Within(kept, h);
    WithinConsistent(kept, h);
    WithinMembers(kept, h);
    ConsistentIsDistinct(kept);
    LoadIsFifo(Glued(d));
    forall i | 0 <= i < |kept| ensures Admits(kept[i], v) && kept[i].targetNumber <= v.targetNumber + REACH {
      assert kept[i] in h;
      var k :| 0 <= k < |h| && h[k] == kept[i];
    }
    CacheDecidesForHistory(kept, v);
  }

  lemma TornRunIsLegal(es: seq<Event>, v: VoteData, w: VoteData)
    requires Legal(es, REACH) && InReach(Run(es).signed, v, REACH) && w.targetNumber == v.targetNumber
    ensures Legal(TornRun(es, v, w), REACH)
  {
    hide Run, Legal, UnderRules, Load, StartedClean, Leave, AppendLine, Added;
    var e1, e2 := Persist(v, Stored), Persist(w, Stored);
    TornRunSteps(es, v, w);
    LegalAppend(es, e1, REACH);
    RunAppend(es, e1);
    LegalAppend(es + [e1], Restart, REACH);
    RunAppend(es + [e1], Restart);
    LegalAppend(es + [e1] + [Restart], e2, REACH);
  }

  /** At every reachable state, a vote that goes out next is kept for ever exactly when the file
      ends in a complete line: otherwise some later run sends a different vote for its height. */
  lemma VoteIsKeptExactlyIfClean(es: seq<Event>, v: VoteData)
    requires Legal(es, REACH) && Passes(Run(es), v) && InReach(Run(es).signed, v, REACH)
    ensures (forall later :: Legal(es + [Persist(v, Stored)] + later, REACH) ==>
                NoneForItsHeight(Run(es + [Persist(v, Stored)] + later).broadcast, |Run(es).broadcast|))
            <==> Run(es).journal.disk.tail.Clean?
    ensures (forall later :: Legal(es + [Persist(v, Stored)] + later, REACH) ==>
                NoOtherForItsHeight(Run(es + [Persist(v, Stored)] + later).broadcast, |Run(es).broadcast|))
            <==> Run(es).journal.disk.tail.Clean?
  {
    hide Run, Legal, StartedClean, UnderRules, Load, TornRun;
    if Run(es).journal.disk.tail.Clean? {
      forall later | Legal(es + [Persist(v, Stored)] + later, REACH)
        ensures NoneForItsHeight(Run(es + [Persist(v, Stored)] + later).broadcast, |Run(es).broadcast|)
      {
        CleanVoteIsKept(es, v, later);
      }
    } else {
      TornVoteIsNotKept(es, v);
    }
  }

  lemma CleanVoteIsKept(es: seq<Event>, v: VoteData, later: seq<Event>)
    requires Passes(Run(es), v) && Run(es).journal.disk.tail.Clean?
    requires Legal(es + [Persist(v, Stored)] + later, REACH)
    ensures NoneForItsHeight(Run(es + [Persist(v, Stored)] + later).broadcast, |Run(es).broadcast|)
  {
    hide Run, Legal, StartedClean, UnderRules, Surrounds;
    var sent, all := es + [Persist(v, Stored)], es + [Persist(v, Stored)] + later;
    var n := |Run(es).broadcast|;
    RunAppend(es, Persist(v, Stored));
    RunExtends(sent, later);
    assert Broadcasts(Run(es), Persist(v, Stored));
    assert StartedClean(sent)[n] && StartedClean(all)[n];
    forall j | n < j < |Run(all).broadcast|
      ensures Run(all).broadcast[j].targetNumber != Run(all).broadcast[n].targetNumber
    {
      BroadcastVotesNeverConflict(all, n, j);
    }
  }

  lemma TornVoteIsNotKept(es: seq<Event>, v: VoteData)
    requires Legal(es, REACH) && Passes(Run(es), v) && InReach(Run(es).signed, v, REACH)
    requires !Run(es).journal.disk.tail.Clean?
    ensures exists later ::
              && Legal(es + [Persist(v, Stored)] + later, REACH)
              && !NoOtherForItsHeight(Run(es + [Persist(v, Stored)] + later).broadcast, |Run(es).broadcast|)
  {
    hide Run, Legal, UnderRules, Load;
    var w := Rival(v);
    GluedFileAdmits(es, v);
    TornAppendIsForgotten(es, v, w);
    TornRunIsLegal(es, v, w);
    var later := [Restart, Persist(w, Stored)];
    assert TornRun(es, v, w) == es + [Persist(v, Stored)] + later;
    var sent, n := Run(TornRun(es, v, w)).broadcast, |Run(es).broadcast|;
    assert sent[n] == v && sent[n + 1] == w;
  }
}
