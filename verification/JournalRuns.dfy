/** Runs of one validator's journal: signing, failed writes, crashes and restarts. */
module JournalRuns {
  import opened Chain
  import opened VoteJournal
  import opened JournalHistory

  /** `Persist` signs a vote and hands it to the journal; the vote leaves the node only when
      the journal accepts it. `CrashDuring` is a process that dies inside the append. */
  datatype Event = Persist(vote: VoteData, io: Io) | CrashDuring(vote: VoteData, residue: Residue) | Restart

  /** `broadcast` and `signed` record, oldest first, the votes that left the node and the
      votes whose append was started. */
  datatype System = System(journal: Journal, broadcast: seq<VoteData>, signed: seq<VoteData>)

  const INITIAL := System(Journal(EMPTY_LRU, Disk([], Clean)), [], [])

  predicate Passes(s: System, v: VoteData) {
    UnderRules(s.journal.lru.entries, v.sourceNumber, v.targetNumber)
  }

  function Reloaded(d: Disk): Journal {
    Journal(Load(d), d)
  }

  function Step(s: System, e: Event): System {
    match e
    case Persist(v, io) =>
      var (j, result) := Written(s.journal, v, io);
      System(j,
             if result.Accepted? then s.broadcast + [v] else s.broadcast,
             if Appends(s, e) then s.signed + [v] else s.signed)
    case CrashDuring(v, residue) =>
      if Appends(s, e) then
        System(Reloaded(Leave(s.journal.disk, v, residue)), s.broadcast, s.signed + [v])
      else
        s.(journal := Reloaded(s.journal.disk))
    case Restart =>
      s.(journal := Reloaded(s.journal.disk))
  }

  /** The step reaches the file. */
  predicate Appends(s: System, e: Event) {
    !e.Restart? && Passes(s, e.vote) && !(e.Persist? && e.io.OpenFailed?)
  }

  function Run(es: seq<Event>): System {
    if |es| == 0 then INITIAL else Step(Run(es[..|es| - 1]), es[|es| - 1])
  }

  /** An append is at most `reach` below the highest target signed before. */
  ghost predicate LegalStep(s: System, e: Event, reach: nat) {
    Appends(s, e) ==> InReach(s.signed, e.vote, reach)
  }

  ghost predicate Legal(es: seq<Event>, reach: nat) {
    |es| > 0 ==> Legal(es[..|es| - 1], reach) && LegalStep(Run(es[..|es| - 1]), es[|es| - 1], reach)
  }

  predicate Broadcasts(s: System, e: Event) {
    e.Persist? && Written(s.journal, e.vote, e.io).1.Accepted?
  }

  /** For each broadcast vote, whether its append began on a complete line. */
  function StartedClean(es: seq<Event>): (clean: seq<bool>)
    ensures |clean| == |Run(es).broadcast|
  {
    if |es| == 0 then []
    else
      var s := Run(es[..|es| - 1]);
      StartedClean(es[..|es| - 1]) + (if Broadcasts(s, es[|es| - 1]) then [s.journal.disk.tail.Clean?] else [])
  }

  ghost predicate AllStartedClean(es: seq<Event>) {
    forall i :: 0 <= i < |StartedClean(es)| ==> StartedClean(es)[i]
  }

  // ----- what the file keeps -----

  /** An append is readable afterwards exactly when the file ended in a complete line: on any
      other tail the new record is glued to the old bytes and both are skipped. */
  lemma AppendReadableIffClean(d: Disk, v: VoteData)
    ensures Parsed(AppendLine(d, v)) == Parsed(d) + [v] <==> d.tail.Clean?
    ensures !d.tail.Clean? ==> Parsed(AppendLine(d, v)) == Records(d.lines)
  {
    var d' := AppendLine(d, v);
    assert d'.lines[..|d'.lines| - 1] == d.lines;
    RecordsOfTail(d);
  }

  lemma RecordsOfTail(d: Disk)
    ensures Parsed(d) == Records(d.lines) + (if d.tail.Unterminated? then [d.tail.vote] else [])
  {
    assert !d.tail.Clean? ==> ReadLines(d)[..|ReadLines(d)| - 1] == d.lines;
  }

  lemma RecordsAppend(lines: seq<Line>, line: Line)
    ensures Records(lines + [line]) == Records(lines) + (if line.Record? then [line.vote] else [])
  {
    assert (lines + [line])[..|lines|] == lines;
  }

  /** What can be read after an append that was not rolled back: on a complete line everything
      from before and perhaps the new vote, otherwise the complete lines from before only. */
  lemma ParsedAfterLeave(d: Disk, v: VoteData, residue: Residue)
    ensures var after := Parsed(Leave(d, v, residue));
            if residue.RolledBack? then after == Parsed(d)
            else if !d.tail.Clean? then after == Records(d.lines)
            else after == Parsed(d) + (if residue.PartOfLine? then [] else [v])
  {
    RecordsOfTail(d);
    RecordsOfTail(Leave(d, v, residue));
    RecordsAppend(d.lines, if d.tail.Clean? then Record(v) else Unparsable);
  }

  lemma LinesStay(s: System, e: Event)
    ensures forall v :: v in Records(s.journal.disk.lines) ==> v in Records(Step(s, e).journal.disk.lines)
    ensures Broadcasts(s, e) && s.journal.disk.tail.Clean? ==> e.vote in Records(Step(s, e).journal.disk.lines)
  {
    hide UnderRules, Records, Load, Added;
    if Appends(s, e) {
      RecordsAppend(s.journal.disk.lines, if s.journal.disk.tail.Clean? then Record(e.vote) else Unparsable);
    }
  }

  lemma StepBroadcast(s: System, e: Event)
    ensures Step(s, e).broadcast == if Broadcasts(s, e) then s.broadcast + [e.vote] else s.broadcast
  {
  }

  /** A vote broadcast after an append that began on a complete line stays in the file, whatever
      happens later. */
  lemma {:induction false} CleanVotesStay(es: seq<Event>)
    ensures forall i :: 0 <= i < |StartedClean(es)| && StartedClean(es)[i] ==>
                          Run(es).broadcast[i] in Records(Run(es).journal.disk.lines)
  {
    if |es| > 0 {
      hide Step, Broadcasts, Records;
      CleanVotesStay(es[..|es| - 1]);
      LinesStay(Run(es[..|es| - 1]), es[|es| - 1]);
      StepBroadcast(Run(es[..|es| - 1]), es[|es| - 1]);
    }
  }

  // ----- lists with votes left out -----

  /** `a` is `b` with some votes left out. */
  predicate Within(a: seq<VoteData>, b: seq<VoteData>) {
    |a| == 0 ||
    (|b| > 0 &&
     (|| (a[|a| - 1] == b[|b| - 1] && Within(a[..|a| - 1], b[..|b| - 1]))
      || Within(a, b[..|b| - 1])))
  }

  lemma {:induction false} WithinItself(a: seq<VoteData>)
    ensures Within(a, a)
  {
    if |a| > 0 {
      WithinItself(a[..|a| - 1]);
    }
  }

  lemma WithinLonger(a: seq<VoteData>, b: seq<VoteData>, v: VoteData)
    requires Within(a, b)
    ensures Within(a, b + [v]) && Within(a + [v], b + [v])
  {
    assert (b + [v])[..|b|] == b && (a + [v])[..|a|] == a;
  }

  lemma {:induction false} WithinInit(a: seq<VoteData>, b: seq<VoteData>)
    requires Within(a, b) && |a| > 0
    ensures Within(a[..|a| - 1], b)
  {
    var init := b[..|b| - 1];
    assert b == init + [b[|b| - 1]];
    if Within(a, init) {
      WithinInit(a, init);
    }
    WithinLonger(a[..|a| - 1], init, b[|b| - 1]);
  }

  lemma {:induction false} WithinMembers(a: seq<VoteData>, b: seq<VoteData>)
    requires Within(a, b)
    ensures forall x :: x in a ==> x in b
  {
    if |a| > 0 {
      var init := b[..|b| - 1];
      if Within(a, init) {
        WithinMembers(a, init);
      } else {
        WithinMembers(a[..|a| - 1], init);
        assert a == a[..|a| - 1] + [a[|a| - 1]];
      }
    }
  }

  lemma {:induction false} WithinConsistent(a: seq<VoteData>, b: seq<VoteData>)
    requires Within(a, b) && Consistent(b, REACH)
    ensures Consistent(a, REACH)
  {
    hide Admits;
    if |a| > 0 {
      var init, last := b[..|b| - 1], b[|b| - 1];
      if Within(a, init) {
        WithinConsistent(a, init);
      } else {
        var kept := a[..|a| - 1];
        WithinConsistent(kept, init);
        WithinMembers(kept, init);
        forall i | 0 <= i < |kept|
          ensures Admits(kept[i], last) && kept[i].targetNumber <= last.targetNumber + REACH
        {
          assert kept[i] in init;
          var k :| 0 <= k < |init| && init[k] == kept[i];
          assert b[k] == kept[i] && b[|init|] == last;
        }
        ConsistentExtends(kept, last, REACH);
        assert a == kept + [last];
      }
    }
  }

  // ----- the history behind a reachable state -----

  /** `h` are the votes the running process knows of; the file holds some of them, in order. */
  ghost predicate Inv(s: System, h: seq<VoteData>) {
    && (forall v :: v in h ==> v in s.signed)
    && Consistent(h, REACH)
    && s.journal.lru == Fifo(h)
    && Within(Parsed(s.journal.disk), h)
  }

  lemma ConsistentIsDistinct(h: seq<VoteData>)
    requires Consistent(h, REACH)
    ensures Distinct(h) && Distinct(Recent(h))
  {
    forall i, j | 0 <= i < j < |h| ensures h[i].targetNumber != h[j].targetNumber {
      assert Admits(h[i], h[j]);
    }
  }

  /** A vote that the cache lets through conflicts with no vote of the whole history. */
  lemma CacheDecidesForHistory(h: seq<VoteData>, v: VoteData)
    requires Consistent(h, REACH) && InReach(h, v, REACH)
    requires Distinct(h) && Distinct(Recent(h))
    ensures UnderRules(Fifo(h).entries, v.sourceNumber, v.targetNumber) <==> AdmitsAll(h, v)
  {
    hide UnderRules, ByTarget, Admits, InReach;
    var r := Recent(h);
    RulesMeanAdmitsAll(r, v);
    if AdmitsAll(r, v) {
      forall i | 0 <= i < |h| ensures Admits(h[i], v) {
        if i < |h| - MAX_RECENT_ENTRIES {
          ForgottenHeightAdmits(h, v, i);
        } else {
          assert h[i] == r[i - (|h| - |r|)];
        }
      }
    }
    if AdmitsAll(h, v) {
      forall i | 0 <= i < |r| ensures Admits(r[i], v) {
        assert r[i] == h[i + (|h| - |r|)];
      }
    }
  }

  lemma PassedHeightIsNew(h: seq<VoteData>, v: VoteData)
    requires UnderRules(Fifo(h).entries, v.sourceNumber, v.targetNumber)
    ensures v.targetNumber !in ByTarget(Recent(h))
  {
  }

  lemma AdmittedByHistory(s: System, h: seq<VoteData>, v: VoteData)
    requires Inv(s, h) && Passes(s, v) && InReach(s.signed, v, REACH)
    ensures InReach(h, v, REACH) && AdmitsAll(h, v)
  {
    hide Fifo, UnderRules, Admits, Parsed, Within;
    forall i | 0 <= i < |h| ensures h[i].targetNumber <= v.targetNumber + REACH {
      assert h[i] in s.signed;
    }
    ConsistentIsDistinct(h);
    CacheDecidesForHistory(h, v);
  }

  /** An attempted write claims the height in memory, whatever it leaves in the file. */
  lemma ClaimStep(s: System, h: seq<VoteData>, v: VoteData, residue: Residue, broadcast: seq<VoteData>)
    requires Inv(s, h) && Passes(s, v) && InReach(s.signed, v, REACH)
    ensures Inv(System(Journal(Added(s.journal.lru, MAX_RECENT_ENTRIES, v.targetNumber, v),
                               Leave(s.journal.disk, v, residue)),
                       broadcast, s.signed + [v]),
                h + [v])
  {
    hide Fifo, Added, Recent, ReadLines, Records, UnderRules, Admits, Leave, Parsed, Within;
    var d := s.journal.disk;
    AdmittedByHistory(s, h, v);
    PassedHeightIsNew(h, v);
    ConsistentIsDistinct(h);
    ConsistentExtends(h, v, REACH);
    AddExtendsFifo(h, v);
    ParsedAfterLeave(d, v, residue);
    RecordsOfTail(d);
    WithinLonger(Parsed(d), h, v);
    if d.tail.Unterminated? {
      WithinInit(Parsed(d), h);
      assert Parsed(d)[..|Parsed(d)| - 1] == Records(d.lines);
      WithinLonger(Records(d.lines), h, v);
    }
    assert Parsed(d) + [] == Parsed(d);
    assert Records(d.lines) + [] == Records(d.lines);
  }

  lemma RestartStep(s: System, h: seq<VoteData>)
    requires Inv(s, h)
    ensures Inv(s.(journal := Reloaded(s.journal.disk)), Parsed(s.journal.disk))
  {
    hide Fifo, Parsed, Load, Recent;
    var kept := Parsed(s.journal.disk);
    WithinConsistent(kept, h);
    WithinMembers(kept, h);
    WithinItself(kept);
    ConsistentIsDistinct(kept);
    LoadIsFifo(s.journal.disk);
  }

  lemma InvStep(s: System, h: seq<VoteData>, e: Event) returns (h': seq<VoteData>)
    requires Inv(s, h) && LegalStep(s, e, REACH)
    ensures Inv(Step(s, e), h')
  {
    hide Inv, UnderRules, Added, AppendLine, Load;
    if !Appends(s, e) {
      if e.Persist? {
        h' := h;
      } else {
        RestartStep(s, h);
        h' := Parsed(s.journal.disk);
      }
    } else {
      var residue := if e.CrashDuring? then e.residue else if e.io.Stored? then WholeLine else e.io.residue;
      var broadcast := if Broadcasts(s, e) then s.broadcast + [e.vote] else s.broadcast;
      ClaimStep(s, h, e.vote, residue, broadcast);
      h' := h + [e.vote];
      if e.CrashDuring? {
        var d := Leave(s.journal.disk, e.vote, residue);
        RestartStep(System(Journal(Added(s.journal.lru, MAX_RECENT_ENTRIES, e.vote.targetNumber, e.vote), d),
                           broadcast, s.signed + [e.vote]), h');
        h' := Parsed(d);
      }
    }
  }

  /** Over every run in reach, cache and file are those of one conflict-free history. */
  lemma {:induction false} InvRun(es: seq<Event>) returns (h: seq<VoteData>)
    requires Legal(es, REACH)
    ensures Inv(Run(es), h)
  {
    if |es| == 0 {
      h := [];
    } else {
      var before := InvRun(es[..|es| - 1]);
      h := InvStep(Run(es[..|es| - 1]), before, es[|es| - 1]);
    }
  }

  // ----- the results -----

  lemma {:induction false} BroadcastIsSigned(es: seq<Event>)
    ensures forall v :: v in Run(es).broadcast ==> v in Run(es).signed
  {
    if |es| > 0 {
      hide UnderRules, Load;
      BroadcastIsSigned(es[..|es| - 1]);
    }
  }

  /** A new vote is admitted by every broadcast vote whose append began on a complete line. */
  lemma NewVoteIsAdmitted(es: seq<Event>, v: VoteData, i: int)
    requires Legal(es, REACH) && Passes(Run(es), v) && InReach(Run(es).signed, v, REACH)
    requires 0 <= i < |Run(es).broadcast| && StartedClean(es)[i]
    ensures Admits(Run(es).broadcast[i], v)
  {
    hide Run, Legal, StartedClean, Admits, Fifo, Parsed, Within, Records;
    var h := InvRun(es);
    AdmittedByHistory(Run(es), h, v);
    CleanVotesStay(es);
    RecordsOfTail(Run(es).journal.disk);
    WithinMembers(Parsed(Run(es).journal.disk), h);
    assert Run(es).broadcast[i] in Parsed(Run(es).journal.disk);
    var k :| 0 <= k < |h| && h[k] == Run(es).broadcast[i];
  }

  /** Over every run in reach, with crashes and failed writes anywhere and whatever they leave
      in the file, a broadcast vote whose append began on a complete line admits every vote
      broadcast after it. */
  lemma {:induction false} BroadcastVotesAreAdmitted(es: seq<Event>, i: int, j: int)
    requires Legal(es, REACH) && 0 <= i < j < |Run(es).broadcast|
    ensures StartedClean(es)[i] ==> Admits(Run(es).broadcast[i], Run(es).broadcast[j])
    ensures Run(es).broadcast[i].targetNumber <= Run(es).broadcast[j].targetNumber + REACH
  {
    hide UnderRules, Load, Admits, Added;
    var init, e := es[..|es| - 1], es[|es| - 1];
    var before := Run(init);
    if j < |before.broadcast| {
      BroadcastVotesAreAdmitted(init, i, j);
    } else {
      BroadcastIsSigned(init);
      assert before.broadcast[i] in before.signed;
      if StartedClean(init)[i] {
        NewVoteIsAdmitted(init, e.vote, i);
      }
    }
  }

  lemma BroadcastVotesAreConsistent(es: seq<Event>)
    requires Legal(es, REACH) && AllStartedClean(es)
    ensures Consistent(Run(es).broadcast, REACH)
  {
    hide Run, Legal, StartedClean, Admits;
    var sent := Run(es).broadcast;
    forall i, j | 0 <= i < j < |sent|
      ensures Admits(sent[i], sent[j]) && sent[i].targetNumber <= sent[j].targetNumber + REACH
    {
      BroadcastVotesAreAdmitted(es, i, j);
    }
  }

  predicate Surrounds(outer: VoteData, inner: VoteData) {
    outer.sourceNumber < inner.sourceNumber && inner.targetNumber < outer.targetNumber
  }

  /** No broadcast vote shares its target height with an earlier one whose append began on a
      complete line, and neither surrounds the other as long as the targets are at most 11
      apart, or at most 256 apart when the outer vote came second. */
  lemma BroadcastVotesNeverConflict(es: seq<Event>, i: int, j: int)
    requires Legal(es, REACH)
    requires 0 <= i < j < |Run(es).broadcast| && StartedClean(es)[i]
    ensures var a, b := Run(es).broadcast[i], Run(es).broadcast[j];
            && a.targetNumber != b.targetNumber
            && (a.sourceNumber < a.targetNumber && Surrounds(b, a) ==>
                  b.targetNumber > a.targetNumber + MALICIOUS_VOTE_SLASH_SCOPE)
            && (Surrounds(a, b) ==> a.targetNumber > b.targetNumber + UPPER_LIMIT_OF_VOTE_BLOCK_NUMBER)
  {
    BroadcastVotesAreAdmitted(es, i, j);
  }

  // ----- when every line stays complete -----

  /** What an interrupted or failed append leaves is either nothing or the whole line. */
  predicate LeavesLines(e: Event) {
    match e
    case Persist(_, io) => io.WriteFailed? ==> io.residue.RolledBack? || io.residue.WholeLine?
    case CrashDuring(_, residue) => residue.RolledBack? || residue.WholeLine?
    case Restart => true
  }

  /** If rollbacks succeed and crashes tear no line, every append begins on a complete line. */
  lemma {:induction false} LinesStayComplete(es: seq<Event>)
    requires forall i :: 0 <= i < |es| ==> LeavesLines(es[i])
    ensures Run(es).journal.disk.tail.Clean? && AllStartedClean(es)
  {
    if |es| > 0 {
      hide Step, Broadcasts, LeavesLines;
      LinesStayComplete(es[..|es| - 1]);
      StaysComplete(Run(es[..|es| - 1]), es[|es| - 1]);
      var before := StartedClean(es[..|es| - 1]);
      forall i | 0 <= i < |StartedClean(es)| ensures StartedClean(es)[i] {
        assert i < |before| ==> StartedClean(es)[i] == before[i];
      }
    }
  }

  lemma StaysComplete(s: System, e: Event)
    requires s.journal.disk.tail.Clean? && LeavesLines(e)
    ensures Step(s, e).journal.disk.tail.Clean?
  {
    hide UnderRules, Load, Added;
  }

  /** Then no two broadcast votes conflict, whatever fails and crashes otherwise. */
  lemma CompleteLinesNeverConflict(es: seq<Event>, i: int, j: int)
    requires Legal(es, REACH) && forall k :: 0 <= k < |es| ==> LeavesLines(es[k])
    requires 0 <= i < j < |Run(es).broadcast|
    ensures Admits(Run(es).broadcast[i], Run(es).broadcast[j])
  {
    hide Run, Legal, StartedClean, Admits;
    LinesStayComplete(es);
    assert StartedClean(es)[i];
    BroadcastVotesAreAdmitted(es, i, j);
  }
}
