/** Admission of builder bids: the head checks and the per-builder quota (src/rpc/mev.rs). */
module BidQuota {
  import opened Chain
  import opened Heights

  type Address = int
  type BidHash = int
  type Pending = map<nat, map<Address, set<BidHash>>>

  // ----- the checks in front of the quota -----

  datatype Rejection =
    | NotRunning | StaleNumber | FutureNumber | NotInTurn | NonAlignedParent
    | EmptyGas | EmptyTransactions | InvalidFee | InvalidPayment | Disabled
    | BadSignature | NotRegistered | Revoked

  /** What a validator observes when a request arrives. */
  datatype Observed = Observed(
    running: bool, head: nat, headHash: nat, inTurn: bool, registered: set<Address>,
    revoked: set<Address>, bidBlockEnabled: bool, activationBlock: bool)

  const PAY_BID_TX_GAS_LIMIT: nat := 25_000

  datatype Request =
    | Bid(number: nat, parent: nat, gasFee: nat, gasUsed: nat, builderFee: Option<nat>,
          hasPayment: bool, paymentGas: nat, signer: Option<Address>, hash: BidHash)
    | BidBlock(number: nat, parent: nat, gasUsed: nat, transactions: nat, signer: Option<Address>, hash: BidHash)

  /** `None` when the head checks pass. */
  function ValidateBidHead(number: nat, head: nat, inTurn: bool, parent: nat, headHash: nat): Option<Rejection> {
    if number < head + 1 then Some(StaleNumber)
    else if number > head + 1 then Some(FutureNumber)
    else if !inTurn then Some(NotInTurn)
    else if parent != headHash then Some(NonAlignedParent)
    else None
  }

  /** Why a request is turned away before it reaches the quota, if it is. */
  function TurnedAway(o: Observed, r: Request): Option<Rejection> {
    if !o.running then Some(NotRunning)
    else
      var headCheck := ValidateBidHead(r.number, o.head, o.inTurn, r.parent, o.headHash);
      if headCheck.Some? then headCheck
      else
        match r
        case Bid(_, _, gasFee, gasUsed, builderFee, hasPayment, paymentGas, signer, _) =>
          if gasFee == 0 || gasUsed == 0 then Some(EmptyGas)
          else if builderFee.Some? && builderFee.value >= gasFee then Some(InvalidFee)
          else if !hasPayment || paymentGas == 0 then Some(InvalidPayment)
          else if paymentGas > PAY_BID_TX_GAS_LIMIT then Some(InvalidPayment)
          else if signer.None? then Some(BadSignature)
          else if signer.value !in o.registered then Some(NotRegistered)
          else None
        case BidBlock(_, _, gasUsed, transactions, signer, _) =>
          if gasUsed == 0 then Some(EmptyGas)
          else if transactions == 0 then Some(EmptyTransactions)
          else if !o.bidBlockEnabled then Some(Disabled)
          else if o.activationBlock then Some(Disabled)
          else if signer.None? then Some(BadSignature)
          else if signer.value !in o.registered then Some(NotRegistered)
          else if signer.value in o.revoked then Some(Revoked)
          else None
  }

  // ----- the quota -----

  datatype Outcome = Reserved | AlreadyExists | TooMany

  function HashesAt(p: Pending, number: nat, builder: Address): set<BidHash> {
    if number in p && builder in p[number] then p[number][builder] else {}
  }

  function Above(p: Pending, head: nat): Pending {
    map n | n in p && n > head :: p[n]
  }

  function WithHashes(p: Pending, number: nat, builder: Address, hashes: set<BidHash>): Pending {
    var byBuilder := if number in p then p[number] else map[];
    p[number := byBuilder[builder := hashes]]
  }

  function Decision(hashes: set<BidHash>, hash: BidHash, maxBids: nat): Outcome {
    if hash in hashes then AlreadyExists
    else if |hashes| >= maxBids then TooMany
    else Reserved
  }

  class PendingBids {
    var pending: Pending

    method Reserve(head: nat, number: nat, builder: Address, hash: BidHash, maxBids: nat) returns (outcome: Outcome)
      modifies this
      ensures outcome == Decision(HashesAt(Above(old(pending), head), number, builder), hash, maxBids)
      ensures pending == After(old(pending), head, number, builder, hash, maxBids)
    {
      pending := map n | n in pending && n > head :: pending[n];
      ghost var retained := pending;
      assert retained == Above(old(pending), head);
      var byBuilder := if number in pending then pending[number] else map[];
      var hashes := if builder in byBuilder then byBuilder[builder] else {};
      pending := pending[number := byBuilder[builder := hashes]];
      if hash in hashes {
        return AlreadyExists;
      }
      if |hashes| >= maxBids {
        return TooMany;
      }
      pending := pending[number := byBuilder[builder := hashes + {hash}]];
      assert pending == retained[number := byBuilder[builder := hashes + {hash}]];
      return Reserved;
    }
  }

  /** The reservations after one attempt, whether it succeeds or not. */
  function After(p: Pending, head: nat, number: nat, builder: Address, hash: BidHash, maxBids: nat): Pending {
    var retained := Above(p, head);
    var hashes := HashesAt(retained, number, builder);
    WithHashes(retained, number, builder,
               if Decision(hashes, hash, maxBids).Reserved? then hashes + {hash} else hashes)
  }

  // ----- runs of requests -----

  datatype Arrival = Arrival(observed: Observed, request: Request)

  predicate ReachesQuota(a: Arrival) {
    TurnedAway(a.observed, a.request).None?
  }

  /** What passes the checks builds the next block for a registered builder, who for a bid
      block is not revoked. */
  lemma QuotaIsGuarded(a: Arrival)
    requires ReachesQuota(a)
    ensures a.observed.running && a.observed.inTurn
    ensures a.request.number == a.observed.head + 1 && a.request.parent == a.observed.headHash
    ensures a.request.signer.Some? && a.request.signer.value in a.observed.registered
    ensures a.request.BidBlock? ==> a.request.signer.value !in a.observed.revoked
  {
  }

  /** A request reaches the quota exactly when the node runs, it builds the next height on the
      head while the validator is in turn, it is complete and within its limits, and its signer
      is a registered builder; a bid block also needs the feature to be on, no activation block,
      and a builder that is not revoked. */
  lemma ReachesQuotaExactly(a: Arrival)
    ensures var o, r := a.observed, a.request;
            ReachesQuota(a) <==>
            && o.running && o.inTurn && r.number == o.head + 1 && r.parent == o.headHash
            && r.gasUsed > 0 && r.signer.Some? && r.signer.value in o.registered
            && (r.Bid? ==>
                  && r.gasFee > 0 && (r.builderFee.Some? ==> r.builderFee.value < r.gasFee)
                  && r.hasPayment && 0 < r.paymentGas <= 25_000)
            && (r.BidBlock? ==>
                  r.transactions > 0 && o.bidBlockEnabled && !o.activationBlock && r.signer.value !in o.revoked)
  {
  }

  /** Which of the head checks fails first decides the refusal. */
  lemma HeadRefusals(number: nat, head: nat, inTurn: bool, parent: nat, headHash: nat)
    ensures var r := ValidateBidHead(number, head, inTurn, parent, headHash);
            && (r == Some(StaleNumber) <==> number <= head)
            && (r == Some(FutureNumber) <==> number >= head + 2)
            && (r == Some(NotInTurn) <==> number == head + 1 && !inTurn)
            && (r == Some(NonAlignedParent) <==> number == head + 1 && inTurn && parent != headHash)
  {
  }

  function Step(p: Pending, a: Arrival, maxBids: nat): Pending {
    if !ReachesQuota(a) then p
    else After(p, a.observed.head, a.request.number, a.request.signer.value, a.request.hash, maxBids)
  }

  function Run(xs: seq<Arrival>, maxBids: nat): Pending {
    if |xs| == 0 then map[] else Step(Run(xs[..|xs| - 1], maxBids), xs[|xs| - 1], maxBids)
  }

  /** The arrival reserves a slot for the builder at the height. */
  predicate Reserves(p: Pending, a: Arrival, maxBids: nat, number: nat, builder: Address) {
    && ReachesQuota(a) && a.request.number == number && a.request.signer == Some(builder)
    && Decision(HashesAt(Above(p, a.observed.head), number, builder), a.request.hash, maxBids).Reserved?
  }

  /** The hashes reserved for a builder at a height over a whole run, oldest first. */
  function ReservedHashes(xs: seq<Arrival>, maxBids: nat, number: nat, builder: Address): seq<BidHash> {
    if |xs| == 0 then []
    else
      var init, last := xs[..|xs| - 1], xs[|xs| - 1];
      var before := ReservedHashes(init, maxBids, number, builder);
      if Reserves(Run(init, maxBids), last, maxBids, number, builder) then before + [last.request.hash] else before
  }

  /** Arrivals that reached the quota with a head at or above the height, which drops it. */
  function Resets(xs: seq<Arrival>, number: nat): nat {
    if |xs| == 0 then 0
    else
      var last := xs[|xs| - 1];
      Resets(xs[..|xs| - 1], number) + (if ReachesQuota(last) && last.observed.head >= number then 1 else 0)
  }

  lemma HashesAfter(p: Pending, a: Arrival, maxBids: nat, number: nat, builder: Address)
    ensures HashesAt(Step(p, a, maxBids), number, builder) ==
            if ReachesQuota(a) && a.observed.head >= number then {}
            else if Reserves(p, a, maxBids, number, builder) then HashesAt(p, number, builder) + {a.request.hash}
            else HashesAt(p, number, builder)
  {
    if ReachesQuota(a) {
      QuotaIsGuarded(a);
    }
  }

  lemma ReserveIsFresh(p: Pending, a: Arrival, maxBids: nat, number: nat, builder: Address)
    requires Reserves(p, a, maxBids, number, builder)
    ensures a.request.hash !in HashesAt(p, number, builder) && |HashesAt(p, number, builder)| < maxBids
    ensures a.observed.head + 1 == number
  {
    QuotaIsGuarded(a);
  }

  /** For every run, a builder's reservations at a height are at most the quota for each time
      the height was dropped, plus once more. */
  lemma {:induction false} QuotaPerReset(xs: seq<Arrival>, maxBids: nat, number: nat, builder: Address)
    ensures |ReservedHashes(xs, maxBids, number, builder)| <=
            maxBids * Resets(xs, number) + |HashesAt(Run(xs, maxBids), number, builder)|
    ensures |HashesAt(Run(xs, maxBids), number, builder)| <= maxBids
  {
    hide ReachesQuota, Reserves, Step, HashesAt;
    if |xs| == 0 {
      NothingPending(number, builder);
    } else {
      var init, last := xs[..|xs| - 1], xs[|xs| - 1];
      QuotaPerReset(init, maxBids, number, builder);
      var p := Run(init, maxBids);
      HashesAfter(p, last, maxBids, number, builder);
      if Reserves(p, last, maxBids, number, builder) {
        ReserveIsFresh(p, last, maxBids, number, builder);
      }
      assert maxBids * (Resets(init, number) + 1) == maxBids * Resets(init, number) + maxBids;
    }
  }

  lemma NothingPending(number: nat, builder: Address)
    ensures HashesAt(map[], number, builder) == {}
  {
  }

  // ----- when the observed head never goes down -----

  ghost predicate HeadNeverDrops(xs: seq<Arrival>) {
    forall i, j :: 0 <= i < j < |xs| && ReachesQuota(xs[i]) && ReachesQuota(xs[j]) ==>
                     xs[i].observed.head <= xs[j].observed.head
  }

  /** Once a height was dropped, nothing is reserved there any more. */
  lemma {:induction false} DroppedForGood(xs: seq<Arrival>, number: nat, last: Arrival)
    requires HeadNeverDrops(xs + [last]) && Resets(xs, number) > 0 && ReachesQuota(last)
    ensures last.observed.head >= number
  {
    hide ReachesQuota;
    var a := xs[|xs| - 1];
    if ReachesQuota(a) && a.observed.head >= number {
      assert (xs + [last])[|xs| - 1] == a && (xs + [last])[|xs|] == last;
    } else {
      var init := xs[..|xs| - 1];
      forall i, j | 0 <= i < j < |init + [last]| && ReachesQuota((init + [last])[i]) && ReachesQuota((init + [last])[j])
        ensures (init + [last])[i].observed.head <= (init + [last])[j].observed.head
      {
        var j' := if j == |init| then |xs| else j;
        assert (xs + [last])[i] == (init + [last])[i] && (xs + [last])[j'] == (init + [last])[j];
      }
      DroppedForGood(init, number, last);
    }
  }

  /** Over every run whose observed head never goes down, a builder reserves at most the quota
      at a height and no hash twice, and until the height is dropped the map holds exactly
      what was reserved. */
  lemma {:induction false} QuotaHolds(xs: seq<Arrival>, maxBids: nat, number: nat, builder: Address)
    requires HeadNeverDrops(xs)
    ensures var hashes := ReservedHashes(xs, maxBids, number, builder);
            && |hashes| <= maxBids && AllDifferent(hashes)
            && (Resets(xs, number) == 0 ==> ToSet(hashes) == HashesAt(Run(xs, maxBids), number, builder))
  {
    if |xs| == 0 {
      NothingPending(number, builder);
    } else {
      hide ReachesQuota, Reserves, Step, HashesAt, HeadNeverDrops;
      var init, last := xs[..|xs| - 1], xs[|xs| - 1];
      PrefixNeverDrops(xs);
      QuotaHolds(init, maxBids, number, builder);
      var p := Run(init, maxBids);
      HashesAfter(p, last, maxBids, number, builder);
      var before := ReservedHashes(init, maxBids, number, builder);
      if Reserves(p, last, maxBids, number, builder) {
        ReserveIsFresh(p, last, maxBids, number, builder);
        ReserveReaches(p, last, maxBids, number, builder);
        if Resets(init, number) > 0 {
          assert init + [last] == xs;
          DroppedForGood(init, number, last);
        }
        DifferentCount(before);
        AppendDifferent(before, last.request.hash);
      }
    }
  }

  lemma ReserveReaches(p: Pending, a: Arrival, maxBids: nat, number: nat, builder: Address)
    requires Reserves(p, a, maxBids, number, builder)
    ensures ReachesQuota(a)
  {
  }

  lemma PrefixNeverDrops(xs: seq<Arrival>)
    requires HeadNeverDrops(xs) && |xs| > 0
    ensures HeadNeverDrops(xs[..|xs| - 1])
  {
    hide ReachesQuota;
  }

  lemma AppendDifferent(hs: seq<BidHash>, h: BidHash)
    requires AllDifferent(hs) && h !in ToSet(hs)
    ensures AllDifferent(hs + [h]) && ToSet(hs + [h]) == ToSet(hs) + {h}
  {
    assert forall i :: 0 <= i < |hs| ==> hs[i] in ToSet(hs);
    forall x | x in ToSet(hs) + {h} ensures x in ToSet(hs + [h]) {
      if x == h {
        assert (hs + [h])[|hs|] == h;
      } else {
        var i :| 0 <= i < |hs| && hs[i] == x;
        assert (hs + [h])[i] == x;
      }
    }
  }

  /** What an attempt that reaches the quota is answered. */
  function Answer(p: Pending, a: Arrival, maxBids: nat): Outcome
    requires ReachesQuota(a)
  {
    QuotaIsGuarded(a);
    Decision(HashesAt(Above(p, a.observed.head), a.request.number, a.request.signer.value), a.request.hash, maxBids)
  }

  /** Over such runs an attempt is a duplicate exactly when the builder has reserved that hash at
      that height, else one too many exactly when the quota there is used up, and else succeeds. */
  lemma QuotaDecides(xs: seq<Arrival>, a: Arrival, maxBids: nat)
    requires HeadNeverDrops(xs + [a]) && ReachesQuota(a)
    ensures var number, builder := a.request.number, a.request.signer.value;
            var hashes := ReservedHashes(xs, maxBids, number, builder);
            var answer := Answer(Run(xs, maxBids), a, maxBids);
            && (answer == AlreadyExists <==> a.request.hash in hashes)
            && (answer == TooMany <==> a.request.hash !in hashes && |hashes| >= maxBids)
            && (answer == Reserved <==> a.request.hash !in hashes && |hashes| < maxBids)
            && (answer == Reserved <==> Reserves(Run(xs, maxBids), a, maxBids, number, builder))
  {
    hide Run, ReservedHashes, HeadNeverDrops, Resets;
    QuotaIsGuarded(a);
    assert (xs + [a])[..|xs|] == xs;
    PrefixNeverDrops(xs + [a]);
    var number, builder := a.request.number, a.request.signer.value;
    var hashes := ReservedHashes(xs, maxBids, number, builder);
    QuotaHolds(xs, maxBids, number, builder);
    DifferentCount(hashes);
    if Resets(xs, number) > 0 {
      DroppedForGood(xs, number, a);
    }
    assert HashesAt(Above(Run(xs, maxBids), a.observed.head), number, builder) == ToSet(hashes);
  }

  /** After an attempt the map holds the next block's height and nothing else. */
  lemma {:induction false} OnlyNextHeight(xs: seq<Arrival>, maxBids: nat)
    requires HeadNeverDrops(xs) && |xs| > 0 && ReachesQuota(xs[|xs| - 1])
    ensures Run(xs, maxBids).Keys == {xs[|xs| - 1].observed.head + 1}
  {
    var init, last := xs[..|xs| - 1], xs[|xs| - 1];
    var p := Run(init, maxBids);
    QuotaIsGuarded(last);
    forall n | n in p ensures n <= last.observed.head + 1 {
      KeysComeFromHeads(xs, maxBids, |init|, n);
    }
  }

  lemma {:induction false} KeysComeFromHeads(xs: seq<Arrival>, maxBids: nat, k: nat, n: nat)
    requires k <= |xs| && n in Run(xs[..k], maxBids)
    ensures exists i :: 0 <= i < k && ReachesQuota(xs[i]) && n == xs[i].observed.head + 1
  {
    assert xs[..k][..k - 1] == xs[..k - 1];
    var p, a := Run(xs[..k - 1], maxBids), xs[k - 1];
    if n in p {
      KeysComeFromHeads(xs, maxBids, k - 1, n);
    } else {
      QuotaIsGuarded(a);
    }
  }

  // ----- when the observed head goes down -----

  /** A bid that passes every check at the given head. */
  function PassingBid(head: nat, builder: Address, hash: BidHash): Arrival {
    Arrival(Observed(true, head, 0, true, {builder}, {}, true, false),
            Bid(head + 1, 0, 1, 1, None, true, 1, Some(builder), hash))
  }

  lemma RunAppend(xs: seq<Arrival>, a: Arrival, maxBids: nat, number: nat, builder: Address)
    ensures Run(xs + [a], maxBids) == Step(Run(xs, maxBids), a, maxBids)
    ensures ReservedHashes(xs + [a], maxBids, number, builder) ==
            ReservedHashes(xs, maxBids, number, builder) +
            (if Reserves(Run(xs, maxBids), a, maxBids, number, builder) then [a.request.hash] else [])
    ensures Resets(xs + [a], number) ==
            Resets(xs, number) + (if ReachesQuota(a) && a.observed.head >= number then 1 else 0)
  {
    assert (xs + [a])[..|xs|] == xs;
  }

  /** Bids with different hashes, as many as asked for, one height above the head. */
  function Burst(head: nat, builder: Address, count: nat): seq<Arrival> {
    seq(count, i requires 0 <= i => PassingBid(head, builder, i))
  }

  /** With `count` hashes pending and room for one more, the next bid of a burst is reserved. */
  lemma BidReserves(xs: seq<Arrival>, maxBids: nat, head: nat, builder: Address, count: nat)
    requires HashesAt(Run(xs, maxBids), head + 1, builder) == Between(-1, count) && count < maxBids
    ensures var all := xs + [PassingBid(head, builder, count)];
            && |ReservedHashes(all, maxBids, head + 1, builder)| ==
               |ReservedHashes(xs, maxBids, head + 1, builder)| + 1
            && Resets(all, head + 1) == Resets(xs, head + 1)
            && HashesAt(Run(all, maxBids), head + 1, builder) == Between(-1, count + 1)
  {
    hide Run, ReservedHashes, Resets, HashesAt, Step, Above;
    var p, a := Run(xs, maxBids), PassingBid(head, builder, count);
    BetweenSize(-1, count);
    RunAppend(xs, a, maxBids, head + 1, builder);
    StillAbove(p, head, builder);
    assert Reserves(p, a, maxBids, head + 1, builder);
    HashesAfter(p, a, maxBids, head + 1, builder);
  }

  /** From nothing pending, a builder reserves as many slots as the quota allows. */
  lemma {:induction false} BurstReserves(xs: seq<Arrival>, maxBids: nat, head: nat, builder: Address, count: nat)
    requires HashesAt(Run(xs, maxBids), head + 1, builder) == {} && count <= maxBids
    ensures var all := xs + Burst(head, builder, count);
            && |ReservedHashes(all, maxBids, head + 1, builder)| ==
               |ReservedHashes(xs, maxBids, head + 1, builder)| + count
            && Resets(all, head + 1) == Resets(xs, head + 1)
            && HashesAt(Run(all, maxBids), head + 1, builder) == Between(-1, count)
  {
    hide Run, ReservedHashes, Resets, HashesAt, PassingBid;
    if count == 0 {
      assert xs + Burst(head, builder, count) == xs;
    } else {
      var before := xs + Burst(head, builder, count - 1);
      BurstReserves(xs, maxBids, head, builder, count - 1);
      assert xs + Burst(head, builder, count) == before + [PassingBid(head, builder, count - 1)];
      BidReserves(before, maxBids, head, builder, count - 1);
    }
  }

  lemma StillAbove(p: Pending, head: nat, builder: Address)
    ensures HashesAt(Above(p, head), head + 1, builder) == HashesAt(p, head + 1, builder)
  {
  }

  /** A full burst, and then for each drop a bid one height up and another full burst. */
  function Drops(maxBids: nat, head: nat, builder: Address, drops: nat): seq<Arrival> {
    if drops == 0 then Burst(head, builder, maxBids)
    else Drops(maxBids, head, builder, drops - 1) + [PassingBid(head + 1, builder, 0)] + Burst(head, builder, maxBids)
  }

  /** The bound per reset is reached: after each drop of the head the whole quota is given out
      again, and the same hashes with it. */
  lemma {:induction false} QuotaPerResetIsTight(maxBids: nat, head: nat, builder: Address, drops: nat)
    ensures var xs := Drops(maxBids, head, builder, drops);
            && Resets(xs, head + 1) == drops
            && |ReservedHashes(xs, maxBids, head + 1, builder)| == maxBids * (drops + 1)
            && |HashesAt(Run(xs, maxBids), head + 1, builder)| == maxBids
  {
    hide Run, ReservedHashes, Resets, HashesAt, Step, Burst, PassingBid, Between;
    BetweenSize(-1, maxBids);
    if drops == 0 {
      NothingPending(head + 1, builder);
      NothingReserved(maxBids, head + 1, builder);
      BurstReserves([], maxBids, head, builder, maxBids);
      assert [] + Burst(head, builder, maxBids) == Burst(head, builder, maxBids);
    } else {
      QuotaPerResetIsTight(maxBids, head, builder, drops - 1);
      var before, up := Drops(maxBids, head, builder, drops - 1), PassingBid(head + 1, builder, 0);
      RunAppend(before, up, maxBids, head + 1, builder);
      HigherBid(head, builder);
      HashesAfter(Run(before, maxBids), up, maxBids, head + 1, builder);
      assert !Reserves(Run(before, maxBids), up, maxBids, head + 1, builder);
      BurstReserves(before + [up], maxBids, head, builder, maxBids);
      assert maxBids * (drops + 1) == maxBids * drops + maxBids;
    }
  }

  lemma HigherBid(head: nat, builder: Address)
    ensures var up := PassingBid(head + 1, builder, 0);
            ReachesQuota(up) && up.observed.head >= head + 1 && up.request.number != head + 1
  {
  }

  lemma NothingReserved(maxBids: nat, number: nat, builder: Address)
    ensures Run([], maxBids) == map[] && ReservedHashes([], maxBids, number, builder) == [] && Resets([], number) == 0
  {
  }
}
