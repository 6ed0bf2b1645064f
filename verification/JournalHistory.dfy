/** What the 512-entry cache knows about the whole history of claimed heights.

The cache forgets; the rules are meant to hold against everything that was ever
claimed. The main result here is that forgetting never matters while every new
target stays within REACH heights of the highest one claimed before it. */
module JournalHistory {
  import opened Chain
  import opened Heights
  import opened VoteJournal

  /** How far below the highest claimed target a new target may lie. */
  const REACH: nat := 255

  // ----- a history and the cache that holds its end -----

  ghost predicate Distinct(h: seq<VoteData>) {
    forall i, j :: 0 <= i < j < |h| ==> h[i].targetNumber != h[j].targetNumber
  }

  function Targets(h: seq<VoteData>): seq<nat> {
    seq(|h|, i requires 0 <= i < |h| => h[i].targetNumber)
  }

  function ByTarget(h: seq<VoteData>): map<nat, VoteData> {
    if |h| == 0 then map[]
    else
      var last := h[|h| - 1];
      ByTarget(h[..|h| - 1])[last.targetNumber := last]
  }

  /** The cache after the votes of `h`, oldest first. */
  function Fifo(h: seq<VoteData>): LruState {
    LruState(Targets(Recent(h)), ByTarget(Recent(h)))
  }

  lemma {:induction false} ByTargetContents(h: seq<VoteData>)
    requires Distinct(h)
    ensures forall i :: 0 <= i < |h| ==> h[i].targetNumber in ByTarget(h) && ByTarget(h)[h[i].targetNumber] == h[i]
    ensures forall k :: k in ByTarget(h) ==> k == ByTarget(h)[k].targetNumber && ByTarget(h)[k] in h
  {
    if |h| > 0 {
      ByTargetContents(h[..|h| - 1]);
    }
  }

  lemma ByTargetAppend(h: seq<VoteData>, v: VoteData)
    requires Distinct(h) && v.targetNumber !in ByTarget(h)
    ensures Distinct(h + [v])
    ensures ByTarget(h + [v]) == ByTarget(h)[v.targetNumber := v]
  {
    assert (h + [v])[..|h|] == h;
    ByTargetContents(h);
    hide ByTarget;
    forall i | 0 <= i < |h| ensures h[i].targetNumber != v.targetNumber {
      assert h[i].targetNumber in ByTarget(h);
    }
  }

  lemma {:induction false} ByTargetDrop(h: seq<VoteData>)
    requires Distinct(h) && |h| > 0
    ensures ByTarget(h[1..]) == ByTarget(h) - {h[0].targetNumber}
  {
    var init := h[..|h| - 1];
    if |h| > 1 {
      ByTargetDrop(init);
      assert h[1..][..|h| - 2] == init[1..];
    } else {
      assert init == [];
    }
  }

  lemma RecentAppend(h: seq<VoteData>, v: VoteData)
    ensures Recent(h + [v]) ==
            (if |Recent(h)| < MAX_RECENT_ENTRIES then Recent(h) else Recent(h)[1..]) + [v]
    ensures |Recent(h)| <= MAX_RECENT_ENTRIES
  {
  }

  lemma TargetsAppend(r: seq<VoteData>, v: VoteData)
    ensures Targets(r + [v]) == Targets(r) + [v.targetNumber]
    ensures |r| > 0 ==> Targets(r[1..] + [v]) == Targets(r)[1..] + [v.targetNumber]
  {
  }

  lemma DropDistinct(r: seq<VoteData>, v: VoteData)
    requires Distinct(r) && |r| > 0 && v.targetNumber !in ByTarget(r)
    ensures Distinct(r[1..]) && v.targetNumber !in ByTarget(r[1..])
    ensures ByTarget(r[1..]) == ByTarget(r) - {r[0].targetNumber}
  {
    hide ByTarget;
    ByTargetDrop(r);
  }

  /** Adding a new height is appending to the history. */
  lemma AddExtendsFifo(h: seq<VoteData>, v: VoteData)
    requires Distinct(Recent(h))
    requires v.targetNumber !in ByTarget(Recent(h))
    ensures Distinct(Recent(h + [v]))
    ensures Added(Fifo(h), MAX_RECENT_ENTRIES, v.targetNumber, v) == Fifo(h + [v])
  {
    hide ByTarget, Recent, Distinct, Targets;
    var r := Recent(h);
    RecentAppend(h, v);
    TargetsAppend(r, v);
    assert |Targets(r)| == |r| by { TargetsLength(r); }
    if |r| < MAX_RECENT_ENTRIES {
      ByTargetAppend(r, v);
    } else {
      DropDistinct(r, v);
      ByTargetAppend(r[1..], v);
      FirstTarget(r, v);
    }
  }

  lemma TargetsLength(r: seq<VoteData>)
    ensures |Targets(r)| == |r|
  {
  }

  lemma FirstTarget(r: seq<VoteData>, v: VoteData)
    requires |r| > 0
    ensures (Targets(r) + [v.targetNumber])[0] == r[0].targetNumber
    ensures (Targets(r) + [v.targetNumber])[1..] == Targets(r)[1..] + [v.targetNumber]
  {
  }

  lemma {:induction false} LoadRebuildsFifo(votes: seq<VoteData>)
    requires |votes| <= MAX_RECENT_ENTRIES && Distinct(votes)
    ensures LoadedFrom(votes) == Fifo(votes)
  {
    if |votes| == 0 {
      assert Targets(votes) == [] && ByTarget(votes) == map[];
    } else {
      var init := votes[..|votes| - 1];
      LoadRebuildsFifo(init);
      var last := votes[|votes| - 1];
      assert init + [last] == votes;
      ByTargetContents(init);
      AddExtendsFifo(init, last);
    }
  }

  /** A reload keeps exactly the end of the history that is in the file. */
  lemma LoadIsFifo(d: Disk)
    requires Distinct(Recent(Parsed(d)))
    ensures Load(d) == Fifo(Parsed(d))
  {
    LoadRebuildsFifo(Recent(Parsed(d)));
  }

  // ----- the rules against a history -----

  /** The rules let `later` follow `earlier`. */
  predicate Admits(earlier: VoteData, later: VoteData) {
    && earlier.targetNumber != later.targetNumber
    && (BackwardStart(later.sourceNumber, later.targetNumber) <= earlier.targetNumber < later.targetNumber ==>
          earlier.sourceNumber <= later.sourceNumber)
    && (later.targetNumber < earlier.targetNumber <= later.targetNumber + UPPER_LIMIT_OF_VOTE_BLOCK_NUMBER ==>
          later.sourceNumber <= earlier.sourceNumber)
  }

  ghost predicate AdmitsAll(h: seq<VoteData>, v: VoteData) {
    forall i :: 0 <= i < |h| ==> Admits(h[i], v)
  }

  ghost predicate InReach(h: seq<VoteData>, v: VoteData, reach: nat) {
    forall i :: 0 <= i < |h| ==> h[i].targetNumber <= v.targetNumber + reach
  }

  /** Every vote was admitted by all earlier ones and in reach of them. */
  ghost predicate Consistent(h: seq<VoteData>, reach: nat) {
    forall i, j :: 0 <= i < j < |h| ==> Admits(h[i], h[j]) && h[i].targetNumber <= h[j].targetNumber + reach
  }

  lemma RulesMeanAdmitsAll(h: seq<VoteData>, v: VoteData)
    requires Distinct(h)
    ensures UnderRules(ByTarget(h), v.sourceNumber, v.targetNumber) <==> AdmitsAll(h, v)
  {
    ByTargetContents(h);
    var m := ByTarget(h);
    assert forall i :: 0 <= i < |h| ==> h[i].targetNumber in m && m[h[i].targetNumber] == h[i];
  }

  lemma ConsistentExtends(h: seq<VoteData>, v: VoteData, reach: nat)
    requires Consistent(h, reach) && AdmitsAll(h, v) && InReach(h, v, reach)
    ensures Consistent(h + [v], reach)
  {
  }

  // ----- why a forgotten height cannot matter -----

  /** Different targets in two open intervals are no more than the intervals hold. */
  lemma FewTargets(r: seq<VoteData>, a: int, b: int, c: int, d: int)
    requires Distinct(r) && a < b && c < d
    requires forall i :: 0 <= i < |r| ==> a < r[i].targetNumber < b || c < r[i].targetNumber < d
    ensures |r| <= (b - a - 1) + (d - c - 1)
  {
    FewHeights(Targets(r), a, b, c, d);
  }

  /** The heights the cache still holds leave no room for a conflict with one it dropped. */
  lemma ForgottenHeightAdmits(h: seq<VoteData>, v: VoteData, i: int)
    requires Consistent(h, REACH) && InReach(h, v, REACH)
    requires AdmitsAll(Recent(h), v)
    requires 0 <= i < |h| - MAX_RECENT_ENTRIES
    ensures Admits(h[i], v)
  {
    if !Admits(h[i], v) {
      var r := Recent(h);
      var k, t := h[i].targetNumber, v.targetNumber;
      var n := |h| - MAX_RECENT_ENTRIES;
      forall j | 0 <= j < |r|
        ensures k - REACH - 1 < r[j].targetNumber < k ||
                (if k <= t then t else k) < r[j].targetNumber < t + REACH + 1
      {
        assert r[j] == h[n + j];
        assert Admits(h[i], h[n + j]) && Admits(r[j], v);
      }
      FewTargets(r, k - REACH - 1, k, if k <= t then t else k, t + REACH + 1);
    }
  }

  /** With half the reach a dropped height lies below every window of a new vote. */
  lemma ForgottenHeightIsOutOfWindows(h: seq<VoteData>, v: VoteData, i: int)
    requires Consistent(h, 127) && InReach(h, v, 127)
    requires 0 <= i < |h| - MAX_RECENT_ENTRIES
    ensures h[i].targetNumber + MALICIOUS_VOTE_SLASH_SCOPE < v.targetNumber
    ensures h[i].targetNumber < BackwardStart(v.sourceNumber, v.targetNumber)
  {
    var r := Recent(h);
    var k, t := h[i].targetNumber, v.targetNumber;
    var n := |h| - MAX_RECENT_ENTRIES;
    if t <= k + MALICIOUS_VOTE_SLASH_SCOPE {
      forall j | 0 <= j < |r| ensures k - 128 < r[j].targetNumber < k || k < r[j].targetNumber < t + 128 {
        assert r[j] == h[n + j];
        assert Admits(h[i], h[n + j]);
      }
      forall a, b | 0 <= a < b < |r| ensures r[a].targetNumber != r[b].targetNumber {
        assert Admits(h[n + a], h[n + b]);
      }
      FewTargets(r, k - 128, k, k, if t + 128 <= k then k + 1 else t + 128);
    }
  }
}
