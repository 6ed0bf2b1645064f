/** Accountable safety of fast finality.

A finalized block and a justified block on another branch can only coexist when a third
of the validators voted twice for a height or inside the span of another vote; the journal
keeps its validators out of that third as long as the two blocks are close enough. */
module Finality {
  import opened Chain
  import opened VoteJournal
  import opened JournalHistory
  import opened JournalRuns
  import opened Snapshots

  function Validators(size: nat): (s: set<nat>)
    ensures forall v: nat :: v in s <==> v < size
    ensures |s| == size
  {
    if size == 0 then {} else Validators(size - 1) + {size - 1}
  }

  // ----- justified and finalized -----

  predicate SupportsWith(data: VoteData, source: nat, target: Block) {
    data.sourceNumber == source && data.targetNumber == Number(target) && data.targetHash == Of(target)
  }

  ghost predicate Supports(w: Network, v: nat, source: nat, target: Block) {
    exists data :: HasCast(w, v, data) && SupportsWith(data, source, target)
  }

  ghost function Supporters(w: Network, source: nat, target: Block): set<nat> {
    set v | v in Validators(w.size) && Supports(w, v, source, target)
  }

  /** A quorum voted for `target` from a source at that height. */
  ghost predicate Link(w: Network, source: nat, target: Block) {
    Quorum(w.size) <= |Supporters(w, source, target)|
  }

  ghost predicate Justified(w: Network, b: Block)
    decreases Number(b)
  {
    || b == Genesis
    || exists s: Block :: Number(s) < Number(b) && Ancestor(s, b) && Link(w, Number(s), b) && Justified(w, s)
  }

  ghost predicate Finalized(w: Network, b: Block) {
    Justified(w, b) && exists c: Block :: c.Child? && c.parent == b && Link(w, Number(b), c)
  }

  // ----- two quorums share a third -----

  /** Two conflicting votes: one height twice, or the later target spanning the other vote
      with the targets less than `gap` apart. */
  predicate Conflict(a: VoteData, b: VoteData, gap: nat) {
    || (a.targetNumber == b.targetNumber && a.targetHash != b.targetHash)
    || (Surrounds(b, a) && a.sourceNumber < a.targetNumber && b.targetNumber < a.targetNumber + gap)
  }

  ghost predicate Offends(w: Network, v: nat, gap: nat) {
    exists a, b :: HasCast(w, v, a) && HasCast(w, v, b) && Conflict(a, b, gap)
  }

  ghost function Offenders(w: Network, gap: nat): set<nat> {
    set v | v in Validators(w.size) && Offends(w, v, gap)
  }

  lemma SubsetCount(a: set<nat>, b: set<nat>)
    requires a <= b
    ensures |a| <= |b|
  {
    assert b == a + (b - a);
  }

  lemma QuorumsMeet(size: nat, p: set<nat>, q: set<nat>)
    requires p <= Validators(size) && q <= Validators(size)
    requires Quorum(size) <= |p| && Quorum(size) <= |q|
    ensures 3 * |p * q| >= size
  {
    assert |p + q| + |p * q| == |p| + |q|;
    SubsetCount(p + q, Validators(size));
  }

  /** If every two supporting votes of two links conflict, a third of the validators offend. */
  lemma LinksBlameAThird(w: Network, s1: nat, t1: Block, s2: nat, t2: Block, gap: nat)
    requires Link(w, s1, t1) && Link(w, s2, t2)
    requires forall a, b :: SupportsWith(a, s1, t1) && SupportsWith(b, s2, t2) ==> Conflict(a, b, gap)
    ensures 3 * |Offenders(w, gap)| >= w.size
  {
    var p, q := Supporters(w, s1, t1), Supporters(w, s2, t2);
    QuorumsMeet(w.size, p, q);
    forall v | v in p * q ensures v in Offenders(w, gap) {
      var a :| HasCast(w, v, a) && SupportsWith(a, s1, t1);
      var b :| HasCast(w, v, b) && SupportsWith(b, s2, t2);
      assert Conflict(a, b, gap);
    }
    SubsetCount(p * q, Offenders(w, gap));
  }

  // ----- the Casper argument -----

  /** The link with which a justified block's branch crosses a height. */
  lemma {:induction false} CrossingLink(w: Network, j: Block, height: nat) returns (s: Block, t: Block)
    requires Justified(w, j) && height < Number(j)
    ensures Justified(w, s) && Link(w, Number(s), t)
    ensures Ancestor(s, t) && Ancestor(t, j)
    ensures Number(s) <= height < Number(t)
    decreases Number(j)
  {
    var p :| Number(p) < Number(j) && Ancestor(p, j) && Link(w, Number(p), j) && Justified(w, p);
    if Number(p) <= height {
      s, t := p, j;
    } else {
      s, t := CrossingLink(w, p, height);
      AncestorTransitive(t, p, j);
    }
  }

  lemma TwoJustifiedAtOneHeight(w: Network, a: Block, b: Block, gap: nat)
    requires Justified(w, a) && Justified(w, b)
    requires Number(a) == Number(b) && a != b
    ensures 3 * |Offenders(w, gap)| >= w.size
  {
    assert a != Genesis && b != Genesis;
    var s :| Number(s) < Number(a) && Ancestor(s, a) && Link(w, Number(s), a) && Justified(w, s);
    var t :| Number(t) < Number(b) && Ancestor(t, b) && Link(w, Number(t), b) && Justified(w, t);
    LinksBlameAThird(w, Number(s), a, Number(t), b, gap);
  }

  /** A link across a finalized block either targets a rival of its child or spans its vote. */
  lemma SpanBlamesAThird(w: Network, f: Block, c: Block, s: Block, t: Block, gap: nat)
    requires c.Child? && c.parent == f && Link(w, Number(f), c)
    requires Link(w, Number(s), t) && c != t
    requires Number(s) < Number(f) < Number(t) <= Number(f) + gap
    ensures 3 * |Offenders(w, gap)| >= w.size
  {
    var n, m, k := Number(f), Number(s), Number(t);
    forall a, b | SupportsWith(a, n, c) && SupportsWith(b, m, t) ensures Conflict(a, b, gap) {
      assert a.targetNumber == n + 1 && b.targetNumber == k;
    }
    LinksBlameAThird(w, n, c, m, t, gap);
  }

  /** A justified block that does not build on a finalized block of lower or equal height
      blames a third of the validators. */
  lemma ConflictBlamesAThird(w: Network, f: Block, j: Block)
    requires Finalized(w, f) && Justified(w, j)
    requires Number(f) <= Number(j) && !Ancestor(f, j)
    ensures 3 * |Offenders(w, Number(j) - Number(f))| >= w.size
  {
    var gap := Number(j) - Number(f);
    if Number(f) == Number(j) {
      TwoJustifiedAtOneHeight(w, f, j, gap);
      return;
    }
    var s, t := CrossingLink(w, j, Number(f));
    AncestorTransitive(s, t, j);
    AncestorNumber(t, j);
    if Number(s) == Number(f) {
      TwoJustifiedAtOneHeight(w, f, s, gap);
    } else {
      var c: Block :| c.Child? && c.parent == f && Link(w, Number(f), c);
      if c == t { AncestorTransitive(f, c, j); }
      SpanBlamesAThird(w, f, c, s, t, gap);
    }
  }

  // ----- validators that run the journal -----

  /** The validator's votes are those its journal let out over some run of the given reach, each
      from an append that began on a complete line, and each composed for a valid head. */
  ghost predicate HonestWithin(w: Network, v: nat, reach: nat) {
    && v in w.cast
    && (exists es :: Legal(es, reach) && AllStartedClean(es) && Run(es).broadcast == w.cast[v])
    && (forall data :: data in w.cast[v] ==> exists h: Block :: h.Child? && Valid(w, h) && data == ComposeVote(h))
  }

  ghost predicate Honest(w: Network, v: nat) {
    HonestWithin(w, v, REACH)
  }

  ghost function Faulty(w: Network): set<nat> {
    set v | v in Validators(w.size) && !Honest(w, v)
  }

  ghost predicate FewFaulty(w: Network) {
    3 * |Faulty(w)| < w.size
  }

  /** The validator never votes for a lower or equal height after a higher one. */
  ghost predicate TargetsRise(w: Network, v: nat) {
    v in w.cast ==> forall i, j :: 0 <= i < j < |w.cast[v]| ==> w.cast[v][i].targetNumber < w.cast[v][j].targetNumber
  }

  /** The validators that are not both honest and rising. */
  ghost function Unsteady(w: Network): set<nat> {
    set v | v in Validators(w.size) && !(Honest(w, v) && TargetsRise(w, v))
  }

  ghost predicate FewUnsteady(w: Network) {
    3 * |Unsteady(w)| < w.size
  }

  /** If the honest validators' targets rise, only the faulty ones are unsteady. */
  lemma OnlyFaultyAreUnsteady(w: Network)
    ensures FewUnsteady(w) ==> FewFaulty(w)
    ensures (forall v :: v in Validators(w.size) && Honest(w, v) ==> TargetsRise(w, v)) ==> Unsteady(w) == Faulty(w)
  {
    hide Honest, TargetsRise;
    SubsetCount(Faulty(w), Unsteady(w));
  }

  lemma HonestNeverOffends(w: Network, v: nat, gap: nat)
    requires Honest(w, v)
    requires || gap <= UPPER_LIMIT_OF_VOTE_BLOCK_NUMBER + 1
             || (TargetsRise(w, v) && gap <= MALICIOUS_VOTE_SLASH_SCOPE + 1)
    ensures !Offends(w, v, gap)
  {
    hide Run, Legal, StartedClean, Valid, ComposeVote;
    var es :| Legal(es, REACH) && AllStartedClean(es) && Run(es).broadcast == w.cast[v];
    forall a, b | HasCast(w, v, a) && HasCast(w, v, b) ensures !Conflict(a, b, gap) {
      var i :| 0 <= i < |w.cast[v]| && w.cast[v][i] == a;
      var j :| 0 <= j < |w.cast[v]| && w.cast[v][j] == b;
      if i < j {
        BroadcastVotesNeverConflict(es, i, j);
      } else if j < i {
        BroadcastVotesNeverConflict(es, j, i);
      }
    }
  }

  /** Fewer than a third offend within 12 heights, and within 257 if fewer than a third are
      unsteady. */
  lemma FewOffend(w: Network, gap: nat)
    requires || (FewFaulty(w) && gap <= UPPER_LIMIT_OF_VOTE_BLOCK_NUMBER + 1)
             || (FewUnsteady(w) && gap <= MALICIOUS_VOTE_SLASH_SCOPE + 1)
    ensures 3 * |Offenders(w, gap)| < w.size
  {
    hide Honest, Offends, TargetsRise;
    var blamed := if FewFaulty(w) && gap <= UPPER_LIMIT_OF_VOTE_BLOCK_NUMBER + 1 then Faulty(w) else Unsteady(w);
    forall v | v in Offenders(w, gap) ensures v in blamed {
      if v !in blamed { HonestNeverOffends(w, v, gap); }
    }
    SubsetCount(Offenders(w, gap), blamed);
  }

  /** With fewer than a third faulty, a justified block up to 12 heights above a finalized one
      builds on it; with fewer than a third unsteady, up to 257 heights. */
  lemma JustifiedBuildsOnFinalized(w: Network, f: Block, j: Block)
    requires Finalized(w, f) && Justified(w, j) && Number(f) <= Number(j)
    requires || (FewFaulty(w) && Number(j) <= Number(f) + UPPER_LIMIT_OF_VOTE_BLOCK_NUMBER + 1)
             || (FewUnsteady(w) && Number(j) <= Number(f) + MALICIOUS_VOTE_SLASH_SCOPE + 1)
    ensures Ancestor(f, j)
  {
    hide Justified, Finalized, Ancestor, FewFaulty, FewUnsteady, Offenders;
    if !Ancestor(f, j) {
      ConflictBlamesAThird(w, f, j);
      FewOffend(w, Number(j) - Number(f));
    }
  }
}
