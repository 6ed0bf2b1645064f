/** The double-sign guard shared by every block-submission path (src/shared.rs). */
module MinedBlockGuard {
  import opened Chain
  import opened Heights
  import opened Lru

  const RECENT_MINED_BLOCKS_CACHE_SIZE: nat := 100

  type Cache = seq<Entry<nat, seq<Hash>>>

  function Retained(parents: seq<Hash>, parent: Hash): seq<Hash> {
    if |parents| == 0 then []
    else if parents[0] == parent then Retained(parents[1..], parent)
    else [parents[0]] + Retained(parents[1..], parent)
  }

  /** The cache after a claim. */
  function Recorded(c: Cache, capacity: nat, number: nat, parent: Hash): Cache {
    match Lookup(c, number)
    case Some(parents) =>
      if parent in parents then Got(c, number)
      else Put(Got(c, number), capacity, number, parents + [parent])
    case None => Put(c, capacity, number, [parent])
  }

  /** Whether a claim succeeds. */
  predicate Free(c: Cache, number: nat, parent: Hash) {
    var parents := Lookup(c, number);
    parents.None? || parent !in parents.value
  }

  /** The cache after a rollback. */
  function Forgotten(c: Cache, capacity: nat, number: nat, parent: Hash): Cache {
    match Lookup(c, number)
    case Some(parents) => Put(Got(c, number), capacity, number, Retained(parents, parent))
    case None => c
  }

  method RetainOthers(parents: seq<Hash>, parent: Hash) returns (retained: seq<Hash>)
    ensures retained == Retained(parents, parent)
  {
    retained := [];
    for i := 0 to |parents|
      invariant retained + Retained(parents[i..], parent) == Retained(parents, parent)
    {
      assert parents[i..][1..] == parents[i + 1..];
      if parents[i] != parent {
        retained := retained + [parents[i]];
      }
    }
  }

  class MinedBlockGuard {
    const cache: LruMap<nat, seq<Hash>>

    ghost predicate Valid() {
      cache.capacity == RECENT_MINED_BLOCKS_CACHE_SIZE
    }

    constructor ()
      ensures Valid() && fresh(cache) && cache.entries == []
    {
      cache := new LruMap(RECENT_MINED_BLOCKS_CACHE_SIZE);
    }

    method CheckAndRecord(number: nat, parent: Hash) returns (ok: bool)
      requires Valid()
      modifies cache
      ensures ok <==> Free(old(cache.entries), number, parent)
      ensures cache.entries == Recorded(old(cache.entries), RECENT_MINED_BLOCKS_CACHE_SIZE, number, parent)
    {
      var previous := cache.Get(number);
      match previous
      case Some(parents) =>
        if parent in parents {
          return false;
        }
        cache.Insert(number, parents + [parent]);
        return true;
      case None =>
        cache.Insert(number, [parent]);
        return true;
    }

    method Forget(number: nat, parent: Hash)
      requires Valid()
      modifies cache
      ensures cache.entries == Forgotten(old(cache.entries), RECENT_MINED_BLOCKS_CACHE_SIZE, number, parent)
    {
      var previous := cache.Get(number);
      if previous.Some? {
        var retained := RetainOthers(previous.value, parent);
        cache.Insert(number, retained);
      }
    }
  }

  lemma {:induction false} RetainedMembers(parents: seq<Hash>, parent: Hash)
    ensures forall h :: h in Retained(parents, parent) <==> h in parents && h != parent
  {
    if |parents| > 0 {
      RetainedMembers(parents[1..], parent);
      assert parents == [parents[0]] + parents[1..];
    }
  }

  // ----- the guard without a bound -----

  /** Moving a key to the front twice is moving it once. */
  lemma {:induction false} WithoutTwice(c: Cache, number: nat)
    requires DistinctKeys(c)
    ensures Without(Without(c, number), number) == Without(c, number)
  {
    WithoutDistinct(c, number);
    var r := Without(c, number);
    PositionFinds(r, number);
    WithoutAbsent(r, number);
  }

  /** The parents recorded for a height once the call is done. */
  function ParentsAfterClaim(c: Cache, number: nat, parent: Hash): seq<Hash> {
    match Lookup(c, number)
    case Some(parents) => if parent in parents then parents else parents + [parent]
    case None => [parent]
  }

  /** Every call that finds its height or claims it moves it to the front. */
  lemma CallsTouch(c: Cache, capacity: nat, number: nat, parent: Hash)
    requires capacity > 0 && DistinctKeys(c) && |c| <= capacity
    ensures Recorded(c, capacity, number, parent) == Put(c, capacity, number, ParentsAfterClaim(c, number, parent))
    ensures Lookup(c, number).Some? ==>
              Forgotten(c, capacity, number, parent) ==
              Put(c, capacity, number, Retained(Lookup(c, number).value, parent))
  {
    var found := Lookup(c, number);
    if found.Some? {
      WithoutTwice(c, number);
      assert Touch(c, number, found.value)[1..] == Without(c, number);
      WithoutSize(c, number);
    }
  }

  /** Heights used more recently are at most `reach` below the ones used before. */
  ghost predicate Spaced(u: Cache, reach: nat) {
    forall i, j :: 0 <= i < j < |u| ==> u[j].key <= u[i].key + reach
  }

  ghost predicate InReach(u: Cache, number: nat, reach: nat) {
    forall i :: 0 <= i < |u| ==> u[i].key <= number + reach
  }

  lemma {:induction false} WithoutSpaced(u: Cache, number: nat, reach: nat)
    requires Spaced(u, reach)
    ensures Spaced(Without(u, number), reach)
  {
    if |u| > 0 && u[0].key != number {
      WithoutSpaced(u[1..], number, reach);
      WithoutMembers(u[1..], number);
      var r := Without(u[1..], number);
      forall j | 0 <= j < |r| ensures r[j].key <= u[0].key + reach {
        assert r[j] in r;
      }
    }
  }

  lemma TouchSpaced(u: Cache, number: nat, parents: seq<Hash>, reach: nat)
    requires Spaced(u, reach) && InReach(u, number, reach)
    ensures Spaced(Touch(u, number, parents), reach)
  {
    WithoutSpaced(u, number, reach);
    WithoutMembers(u, number);
    var r := Without(u, number);
    forall j | 0 <= j < |r| ensures r[j].key <= number + reach {
      assert r[j] in r;
    }
  }

  const REACH: nat := 49

  /** A height in reach that was ever used is among the hundred most recent ones. */
  lemma UsedHeightIsRecent(u: Cache, number: nat)
    requires DistinctKeys(u) && Spaced(u, REACH) && InReach(u, number, REACH)
    ensures Position(u, number) < RECENT_MINED_BLOCKS_CACHE_SIZE || Lookup(u, number).None?
  {
    PositionFinds(u, number);
    var p := Position(u, number);
    if p < |u| {
      var newer := seq(p, i requires 0 <= i < p => u[i].key as int);
      forall i | 0 <= i < p
        ensures number - REACH - 1 < newer[i] < number || number < newer[i] < number + REACH + 1
      {
        assert u[p].key <= u[i].key + REACH;
      }
      FewHeights(newer, number - REACH - 1, number, number, number + REACH + 1);
    }
  }

  lemma TakeDistinct(u: Cache, capacity: nat)
    requires DistinctKeys(u)
    ensures DistinctKeys(Take(u, capacity))
  {
  }

  /** A claim on the bounded cache is a claim on the unbounded one. */
  lemma BoundedClaim(u: Cache, number: nat, parent: Hash)
    requires DistinctKeys(u) && Spaced(u, REACH) && InReach(u, number, REACH)
    ensures var c := Take(u, RECENT_MINED_BLOCKS_CACHE_SIZE);
            var u' := Touch(u, number, ParentsAfterClaim(u, number, parent));
            && (Free(c, number, parent) <==> Free(u, number, parent))
            && Recorded(c, RECENT_MINED_BLOCKS_CACHE_SIZE, number, parent) == Take(u', RECENT_MINED_BLOCKS_CACHE_SIZE)
            && DistinctKeys(u') && Spaced(u', REACH)
  {
    hide DistinctKeys, Spaced, Recorded, Touch, Lookup, Put, Position, Take;
    var c := Take(u, RECENT_MINED_BLOCKS_CACHE_SIZE);
    UsedHeightIsRecent(u, number);
    TakeSize(u, RECENT_MINED_BLOCKS_CACHE_SIZE);
    TakeDistinct(u, RECENT_MINED_BLOCKS_CACHE_SIZE);
    LookupTake(u, RECENT_MINED_BLOCKS_CACHE_SIZE, number);
    CallsTouch(c, RECENT_MINED_BLOCKS_CACHE_SIZE, number, parent);
    BoundedTouch(u, RECENT_MINED_BLOCKS_CACHE_SIZE, number, ParentsAfterClaim(u, number, parent));
    TouchDistinct(u, number, ParentsAfterClaim(u, number, parent));
    TouchSpaced(u, number, ParentsAfterClaim(u, number, parent), REACH);
  }

  lemma TakeSize(u: Cache, capacity: nat)
    ensures |Take(u, capacity)| <= capacity
  {
  }

  /** A rollback on the bounded cache is a rollback on the unbounded one. */
  lemma BoundedForget(u: Cache, number: nat, parent: Hash)
    requires DistinctKeys(u) && Spaced(u, REACH) && InReach(u, number, REACH)
    ensures var c := Take(u, RECENT_MINED_BLOCKS_CACHE_SIZE);
            var found := Lookup(u, number);
            var u' := if found.Some? then Touch(u, number, Retained(found.value, parent)) else u;
            && Forgotten(c, RECENT_MINED_BLOCKS_CACHE_SIZE, number, parent) == Take(u', RECENT_MINED_BLOCKS_CACHE_SIZE)
            && DistinctKeys(u') && Spaced(u', REACH)
  {
    hide DistinctKeys, Spaced, Recorded, Touch, Lookup, Put, Position, Take, Retained, Got;
    var c := Take(u, RECENT_MINED_BLOCKS_CACHE_SIZE);
    UsedHeightIsRecent(u, number);
    TakeSize(u, RECENT_MINED_BLOCKS_CACHE_SIZE);
    TakeDistinct(u, RECENT_MINED_BLOCKS_CACHE_SIZE);
    LookupTake(u, RECENT_MINED_BLOCKS_CACHE_SIZE, number);
    var found := Lookup(u, number);
    if found.Some? {
      CallsTouch(c, RECENT_MINED_BLOCKS_CACHE_SIZE, number, parent);
      BoundedTouch(u, RECENT_MINED_BLOCKS_CACHE_SIZE, number, Retained(found.value, parent));
      TouchDistinct(u, number, Retained(found.value, parent));
      TouchSpaced(u, number, Retained(found.value, parent), REACH);
    }
  }
}
