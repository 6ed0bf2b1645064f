/** What a write attempt leaves behind in the running process: the height stays claimed whatever
became of the write, until 512 further claims have pushed it out. */
module JournalClaims {
  import opened Chain
  import opened VoteJournal
  import opened JournalRuns
  import opened JournalBounds

  // ----- single writes -----

  /** The three answers, and that only an attempted write changes anything. */
  lemma AnswersExactly(j: Journal, v: VoteData, io: Io)
    ensures var (after, answer) := Written(j, v, io);
            var passes := UnderRules(j.lru.entries, v.sourceNumber, v.targetNumber);
            && (answer == RuleViolation <==> !passes)
            && (answer == StorageFault <==> passes && io != Stored)
            && (answer == Accepted <==> passes && io == Stored)
            && (after == j <==> !passes || io == OpenFailed)
  {
    var passes := UnderRules(j.lru.entries, v.sourceNumber, v.targetNumber);
    if passes && io != OpenFailed {
      assert v.targetNumber in Written(j, v, io).0.lru.entries && v.targetNumber !in j.lru.entries;
    }
  }

  /** After any attempted write, failed and rolled back or not, a second vote for the height is
      refused; after an open failure the journal is as before. */
  lemma AttemptClaimsHeight(j: Journal, v: VoteData, io: Io, v': VoteData, io': Io)
    requires UnderRules(j.lru.entries, v.sourceNumber, v.targetNumber) && v'.targetNumber == v.targetNumber
    ensures var after := Written(j, v, io).0;
            if io == OpenFailed then after == j else Written(after, v', io') == (after, RuleViolation)
  {
  }

  // ----- the cache over runs -----

  /** The queue has no height twice, holds the keys of the map, and is at most 512 long. */
  ghost predicate Matches(l: LruState) {
    && |l.order| <= MAX_RECENT_ENTRIES
    && (forall i, j :: 0 <= i < j < |l.order| ==> l.order[i] != l.order[j])
    && (forall k :: k in l.entries <==> k in l.order)
  }

  /** Dropping the oldest key from queue and map leaves them in step. */
  lemma DropMatches(pushed: seq<nat>, k: nat)
    requires |pushed| > 0 && forall i, j :: 0 <= i < j < |pushed| ==> pushed[i] != pushed[j]
    ensures k in pushed[1..] <==> k in pushed && k != pushed[0]
  {
    assert pushed == [pushed[0]] + pushed[1..];
  }

  lemma AddedMatches(l: LruState, key: nat, value: VoteData)
    requires Matches(l)
    ensures Matches(Added(l, MAX_RECENT_ENTRIES, key, value))
  {
    var l' := Added(l, MAX_RECENT_ENTRIES, key, value);
    if key !in l.entries {
      var pushed := l.order + [key];
      assert forall i, j :: 0 <= i < j < |pushed| ==> pushed[i] != pushed[j];
      if |pushed| > MAX_RECENT_ENTRIES {
        forall k ensures k in l'.entries <==> k in l'.order {
          DropMatches(pushed, k);
        }
      }
    }
  }

  lemma {:induction false} LoadedMatches(votes: seq<VoteData>)
    ensures Matches(LoadedFrom(votes))
  {
    if |votes| > 0 {
      var last := votes[|votes| - 1];
      LoadedMatches(votes[..|votes| - 1]);
      AddedMatches(LoadedFrom(votes[..|votes| - 1]), last.targetNumber, last);
    }
  }

  /** Over every run, whatever its targets. */
  lemma {:induction false} RunMatches(es: seq<Event>)
    ensures Matches(Run(es).journal.lru)
  {
    if |es| > 0 {
      hide Matches, UnderRules, Added, LoadedFrom, Parsed, Leave, AppendLine;
      var s, e := Run(es[..|es| - 1]), es[|es| - 1];
      RunMatches(es[..|es| - 1]);
      if e.Persist? {
        AddedMatches(s.journal.lru, e.vote.targetNumber, e.vote);
      } else {
        LoadedMatches(Recent(Parsed(Step(s, e).journal.disk)));
      }
    } else {
      LoadedMatches([]);
    }
  }

  // ----- one process lifetime -----

  ghost predicate SameProcess(later: seq<Event>) {
    forall i :: 0 <= i < |later| ==> later[i].Persist?
  }

  /** The claims that `later` adds after `es`. */
  function Claims(es: seq<Event>, later: seq<Event>): nat {
    if |later| == 0 then 0
    else
      var init, e := later[..|later| - 1], later[|later| - 1];
      Claims(es, init) + (if Appends(Run(es + init), e) then 1 else 0)
  }

  /** No event of `later` claims `key` again. */
  ghost predicate NotReclaimed(es: seq<Event>, later: seq<Event>, key: nat) {
    forall i :: 0 <= i < |later| && later[i].Persist? && Appends(Run(es + later[..i]), later[i]) ==>
                  later[i].vote.targetNumber != key
  }

  /** `key` was claimed `after` claims ago. */
  ghost predicate ClaimedAgo(l: LruState, key: nat, after: nat) {
    if after < MAX_RECENT_ENTRIES then after < |l.order| && l.order[|l.order| - 1 - after] == key
    else key !in l.order
  }

  lemma AddedAgo(l: LruState, key: nat, after: nat, v: VoteData)
    requires Matches(l) && ClaimedAgo(l, key, after) && v.targetNumber !in l.entries
    requires after < MAX_RECENT_ENTRIES || v.targetNumber != key
    ensures ClaimedAgo(Added(l, MAX_RECENT_ENTRIES, v.targetNumber, v), key, after + 1)
  {
    var pushed := l.order + [v.targetNumber];
    if after < MAX_RECENT_ENTRIES {
      assert pushed[|l.order| - 1 - after] == key;
    } else {
      assert key !in pushed;
    }
  }

  lemma AppendAdds(s: System, e: Event)
    requires e.Persist?
    ensures Step(s, e).journal.lru ==
            if Appends(s, e) then Added(s.journal.lru, MAX_RECENT_ENTRIES, e.vote.targetNumber, e.vote)
            else s.journal.lru
    ensures Appends(s, e) ==> e.vote.targetNumber !in s.journal.lru.entries
  {
  }

  lemma {:induction false} ClaimAges(es: seq<Event>, e: Event, later: seq<Event>)
    requires e.Persist? && Appends(Run(es), e) && SameProcess(later)
    requires Claims(es + [e], later) <= MAX_RECENT_ENTRIES || NotReclaimed(es + [e], later, e.vote.targetNumber)
    ensures ClaimedAgo(Run(es + [e] + later).journal.lru, e.vote.targetNumber, Claims(es + [e], later))
  {
    hide Run, Step, Appends, Added, StartedClean;
    if |later| == 0 {
      RunAppend(es, e);
      AppendAdds(Run(es), e);
      assert es + [e] + later == es + [e];
      NewestIsLast(Run(es).journal.lru, e.vote);
    } else {
      var init, last := later[..|later| - 1], later[|later| - 1];
      var before := es + [e] + init;
      if NotReclaimed(es + [e], later, e.vote.targetNumber) {
        assert forall i :: 0 <= i < |init| ==> init[i] == later[i] && init[..i] == later[..i];
        assert later[..|init|] == init;
      }
      ClaimAges(es, e, init);
      assert es + [e] + later == before + [last];
      RunAppend(before, last);
      AppendAdds(Run(before), last);
      RunMatches(before);
      if Appends(Run(before), last) {
        AddedAgo(Run(before).journal.lru, e.vote.targetNumber, Claims(es + [e], init), last.vote);
      }
    }
  }

  lemma NewestIsLast(l: LruState, v: VoteData)
    requires v.targetNumber !in l.entries
    ensures ClaimedAgo(Added(l, MAX_RECENT_ENTRIES, v.targetNumber, v), v.targetNumber, 0)
  {
  }

  /** Over every run of any reach and until a restart, a height whose append was attempted is
      known exactly while fewer than 512 further claims were made, for good unless a vote for it
      is attempted again. */
  lemma ClaimIsKnownExactly(es: seq<Event>, e: Event, later: seq<Event>)
    requires e.Persist? && Appends(Run(es), e) && SameProcess(later)
    requires Claims(es + [e], later) <= MAX_RECENT_ENTRIES || NotReclaimed(es + [e], later, e.vote.targetNumber)
    ensures e.vote.targetNumber in Run(es + [e] + later).journal.lru.entries <==>
            Claims(es + [e], later) < MAX_RECENT_ENTRIES
  {
    hide Run, Appends;
    ClaimAges(es, e, later);
    RunMatches(es + [e] + later);
  }

  /** So long no other vote for the height is broadcast, journalled or claimed. */
  lemma AttemptedHeightIsRefused(es: seq<Event>, e: Event, later: seq<Event>, v: VoteData, io: Io)
    requires e.Persist? && Appends(Run(es), e) && SameProcess(later)
    requires Claims(es + [e], later) < MAX_RECENT_ENTRIES && v.targetNumber == e.vote.targetNumber
    ensures var s := Run(es + [e] + later);
            Written(s.journal, v, io).1 == RuleViolation && Step(s, Persist(v, io)) == s
  {
    hide Run;
    ClaimIsKnownExactly(es, e, later);
  }
}
