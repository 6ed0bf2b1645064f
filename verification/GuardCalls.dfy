/** The guard's answers over any sequence of calls, with no bound on the heights. */
module GuardCalls {
  import opened Chain
  import opened Lru
  import opened MinedBlockGuard

  datatype Call = Claim(number: nat, parent: Hash) | GiveBack(number: nat, parent: Hash)

  function Run(cs: seq<Call>): Cache {
    if |cs| == 0 then []
    else
      var before, last := Run(cs[..|cs| - 1]), cs[|cs| - 1];
      match last
      case Claim(number, parent) => Recorded(before, RECENT_MINED_BLOCKS_CACHE_SIZE, number, parent)
      case GiveBack(number, parent) => Forgotten(before, RECENT_MINED_BLOCKS_CACHE_SIZE, number, parent)
  }

  /** The heights used so far: every claim, granted or not, and every slot given back while its
      height is remembered. */
  ghost function Uses(cs: seq<Call>): seq<nat> {
    if |cs| == 0 then []
    else
      var before, last := Uses(cs[..|cs| - 1]), cs[|cs| - 1];
      before + (if last.Claim? || RememberedOf(before, 100, last.number) then [last.number] else [])
  }

  /** The parents claimed at a height and not given back, since it was last forgotten. */
  ghost function ClaimedAt(cs: seq<Call>, number: nat): set<Hash> {
    if |cs| == 0 then {}
    else
      var init, last := cs[..|cs| - 1], cs[|cs| - 1];
      var before := if RememberedOf(Uses(init), 100, number) then ClaimedAt(init, number) else {};
      if last.number != number then before
      else if last.Claim? then before + {last.parent}
      else before - {last.parent}
  }

  ghost predicate Agrees(c: Cache, cs: seq<Call>) {
    && DistinctKeys(c) && HoldsRecent(c, RECENT_MINED_BLOCKS_CACHE_SIZE, Uses(cs))
    && forall n: nat :: Lookup(c, n).Some? ==> forall p :: p in Lookup(c, n).value <==> p in ClaimedAt(cs, n)
  }

  lemma PutDistinct(c: Cache, number: nat, parents: seq<Hash>)
    requires DistinctKeys(c)
    ensures DistinctKeys(Put(c, RECENT_MINED_BLOCKS_CACHE_SIZE, number, parents))
  {
    TouchDistinct(c, number, parents);
    TakeDistinct(Touch(c, number, parents), RECENT_MINED_BLOCKS_CACHE_SIZE);
  }

  /** A call that puts the height back with new parents keeps the agreement. */
  lemma PutAgrees(c: Cache, init: seq<Call>, last: Call, parents: seq<Hash>)
    requires Agrees(c, init)
    requires last.Claim? || RememberedOf(Uses(init), 100, last.number)
    requires forall p :: p in parents <==> p in ClaimedAt(init + [last], last.number)
    ensures Agrees(Put(c, RECENT_MINED_BLOCKS_CACHE_SIZE, last.number, parents), init + [last])
  {
    hide Lookup, Put, HoldsRecent, RememberedOf, DistinctKeys;
    var cs := init + [last];
    assert cs[..|init|] == init;
    var c' := Put(c, RECENT_MINED_BLOCKS_CACHE_SIZE, last.number, parents);
    PutDistinct(c, last.number, parents);
    PutUses(c, RECENT_MINED_BLOCKS_CACHE_SIZE, Uses(init), last.number, parents);
    forall n: nat | Lookup(c', n).Some? ensures forall p :: p in Lookup(c', n).value <==> p in ClaimedAt(cs, n) {
      PutLookup(c, RECENT_MINED_BLOCKS_CACHE_SIZE, last.number, parents, n);
      RecentIsFound(c, RECENT_MINED_BLOCKS_CACHE_SIZE, Uses(init), n);
    }
  }

  lemma UnknownGiveBack(c: Cache, init: seq<Call>, last: Call)
    requires Agrees(c, init) && last.GiveBack? && !RememberedOf(Uses(init), 100, last.number)
    ensures Agrees(c, init + [last])
  {
    hide Lookup, HoldsRecent, RememberedOf, DistinctKeys;
    var cs := init + [last];
    assert cs[..|init|] == init;
    assert Uses(init) + [] == Uses(init);
    forall n: nat | Lookup(c, n).Some? ensures forall p :: p in Lookup(c, n).value <==> p in ClaimedAt(cs, n) {
      RecentIsFound(c, RECENT_MINED_BLOCKS_CACHE_SIZE, Uses(init), n);
    }
  }

  lemma {:induction false} RunAgrees(cs: seq<Call>)
    ensures Agrees(Run(cs), cs)
  {
    if |cs| == 0 {
      NoCalls();
    } else {
      hide Agrees, Lookup, Put, Recorded, Forgotten, RememberedOf, ClaimedAt, Uses;
      var init, last := cs[..|cs| - 1], cs[|cs| - 1];
      assert cs == init + [last];
      RunAgrees(init);
      CallAgrees(Run(init), init, last);
    }
  }

  lemma NoCalls()
    ensures Agrees([], [])
  {
  }

  lemma CallAgrees(c: Cache, init: seq<Call>, last: Call)
    requires Agrees(c, init)
    ensures Agrees(if last.Claim? then Recorded(c, RECENT_MINED_BLOCKS_CACHE_SIZE, last.number, last.parent)
                   else Forgotten(c, RECENT_MINED_BLOCKS_CACHE_SIZE, last.number, last.parent),
                   init + [last])
  {
    hide Lookup, Put, Recorded, RememberedOf, HoldsRecent, DistinctKeys, Uses;
    assert (init + [last])[..|init|] == init;
    var found := Lookup(c, last.number);
    RecentIsFound(c, RECENT_MINED_BLOCKS_CACHE_SIZE, Uses(init), last.number);
    HeldSize(c, Uses(init));
    CallsTouch(c, RECENT_MINED_BLOCKS_CACHE_SIZE, last.number, last.parent);
    if last.Claim? {
      PutAgrees(c, init, last, ParentsAfterClaim(c, last.number, last.parent));
    } else if found.Some? {
      RetainedMembers(found.value, last.parent);
      PutAgrees(c, init, last, Retained(found.value, last.parent));
    } else {
      UnknownGiveBack(c, init, last);
    }
  }

  lemma HeldSize(c: Cache, uses: seq<nat>)
    requires HoldsRecent(c, RECENT_MINED_BLOCKS_CACHE_SIZE, uses)
    ensures |c| <= RECENT_MINED_BLOCKS_CACHE_SIZE
  {
    hide Recency;
    assert |c| == |KeysOf(c)|;
  }

  /** A claim is refused exactly when fewer than 100 other heights were used since its own and the
      parent was claimed there and not given back since the height was last forgotten. */
  lemma RefusedExactly(cs: seq<Call>, number: nat, parent: Hash)
    ensures !Free(Run(cs), number, parent) <==> RememberedOf(Uses(cs), 100, number) && parent in ClaimedAt(cs, number)
  {
    hide Run, Lookup, RememberedOf, Uses, ClaimedAt, HoldsRecent, DistinctKeys;
    RunAgrees(cs);
    RecentIsFound(Run(cs), RECENT_MINED_BLOCKS_CACHE_SIZE, Uses(cs), number);
  }
}
