/** Least-recently-used maps as their entries, most recently used first. */
module Lru {
  import opened Chain

  datatype Entry<K, V> = Entry(key: K, value: V)

  function Lookup<K(==), V>(l: seq<Entry<K, V>>, k: K): Option<V> {
    if |l| == 0 then None
    else if l[0].key == k then Some(l[0].value)
    else Lookup(l[1..], k)
  }

  function Without<K(==), V>(l: seq<Entry<K, V>>, k: K): seq<Entry<K, V>> {
    if |l| == 0 then []
    else if l[0].key == k then l[1..]
    else [l[0]] + Without(l[1..], k)
  }

  /** Moves a key to the front with a new value. */
  function Touch<K(==), V>(l: seq<Entry<K, V>>, k: K, v: V): seq<Entry<K, V>> {
    [Entry(k, v)] + Without(l, k)
  }

  function Take<T>(l: seq<T>, capacity: nat): seq<T> {
    if |l| <= capacity then l else l[..capacity]
  }

  /** A lookup promotes what it finds. */
  function Got<K(==), V>(l: seq<Entry<K, V>>, k: K): seq<Entry<K, V>> {
    var r := Lookup(l, k);
    if r.Some? then Touch(l, k, r.value) else l
  }

  /** An insertion evicts from the end. */
  function Put<K(==), V>(l: seq<Entry<K, V>>, capacity: nat, k: K, v: V): seq<Entry<K, V>> {
    Take(Touch(l, k, v), capacity)
  }

  class LruMap<K(==), V> {
    const capacity: nat
    var entries: seq<Entry<K, V>>

    constructor (capacity: nat)
      requires capacity > 0
      ensures this.capacity == capacity && entries == []
    {
      this.capacity := capacity;
      entries := [];
    }

    method Get(k: K) returns (r: Option<V>)
      modifies this
      ensures r == Lookup(old(entries), k) && entries == Got(old(entries), k)
    {
      r := Lookup(entries, k);
      if r.Some? {
        entries := [Entry(k, r.value)] + Without(entries, k);
      }
    }

    method Insert(k: K, v: V)
      requires capacity > 0
      modifies this
      ensures entries == Put(old(entries), capacity, k, v)
    {
      var rest := Without(entries, k);
      if |rest| >= capacity {
        rest := rest[..capacity - 1];
      }
      entries := [Entry(k, v)] + rest;
      assert entries == Put(old(entries), capacity, k, v);
    }
  }

  // ----- facts about the list -----

  ghost predicate DistinctKeys<K, V>(l: seq<Entry<K, V>>) {
    forall i, j :: 0 <= i < j < |l| ==> l[i].key != l[j].key
  }

  lemma {:induction false} WithoutMembers<K, V>(l: seq<Entry<K, V>>, k: K)
    ensures forall e :: e in Without(l, k) ==> e in l
  {
    if |l| > 0 && l[0].key != k {
      WithoutMembers(l[1..], k);
    }
  }

  lemma {:induction false} WithoutDistinct<K, V>(l: seq<Entry<K, V>>, k: K)
    requires DistinctKeys(l)
    ensures DistinctKeys(Without(l, k))
    ensures forall i :: 0 <= i < |Without(l, k)| ==> Without(l, k)[i].key != k
  {
    if |l| > 0 && l[0].key != k {
      WithoutDistinct(l[1..], k);
      WithoutMembers(l[1..], k);
      var r := Without(l[1..], k);
      forall i | 0 <= i < |r| ensures r[i].key != l[0].key {
        assert r[i] in r;
      }
    }
  }

  /** Everything but the key keeps its entry. */
  lemma {:induction false} WithoutLookup<K, V>(l: seq<Entry<K, V>>, k: K, x: K)
    requires x != k
    ensures Lookup(Without(l, k), x) == Lookup(l, x)
  {
    if |l| > 0 && l[0].key != k {
      WithoutLookup(l[1..], k, x);
      assert Without(l, k)[1..] == Without(l[1..], k);
    }
  }

  lemma TouchLookup<K, V>(l: seq<Entry<K, V>>, k: K, v: V, x: K)
    ensures Lookup(Touch(l, k, v), x) == if x == k then Some(v) else Lookup(l, x)
  {
    assert Touch(l, k, v)[1..] == Without(l, k);
    if x != k {
      WithoutLookup(l, k, x);
    }
  }

  lemma TouchDistinct<K, V>(l: seq<Entry<K, V>>, k: K, v: V)
    requires DistinctKeys(l)
    ensures DistinctKeys(Touch(l, k, v))
  {
    WithoutDistinct(l, k);
  }

  lemma {:induction false} WithoutAbsent<K, V>(l: seq<Entry<K, V>>, k: K)
    requires Lookup(l, k).None?
    ensures Without(l, k) == l
  {
    if |l| > 0 {
      WithoutAbsent(l[1..], k);
    }
  }

  /** Position of a key, or the length of the list. */
  function Position<K(==), V>(l: seq<Entry<K, V>>, k: K): (p: nat)
    ensures p <= |l|
  {
    if |l| == 0 || l[0].key == k then 0 else 1 + Position(l[1..], k)
  }

  lemma {:induction false} PositionFinds<K, V>(l: seq<Entry<K, V>>, k: K)
    ensures Position(l, k) < |l| <==> Lookup(l, k).Some?
    ensures Position(l, k) < |l| ==> l[Position(l, k)] == Entry(k, Lookup(l, k).value)
    ensures forall i :: 0 <= i < Position(l, k) ==> l[i].key != k
  {
    if |l| > 0 && l[0].key != k {
      PositionFinds(l[1..], k);
    }
  }

  lemma {:induction false} WithoutTake<K, V>(l: seq<Entry<K, V>>, capacity: nat, k: K)
    requires Position(l, k) < capacity && Position(l, k) < |l|
    ensures Without(Take(l, capacity), k) == Take(Without(l, k), capacity - 1)
  {
    var t := Take(l, capacity);
    if l[0].key == k {
      assert t[1..] == Take(l[1..], capacity - 1);
    } else {
      WithoutTake(l[1..], capacity - 1, k);
      assert t[1..] == Take(l[1..], capacity - 1);
    }
  }

  lemma {:induction false} LookupTake<K, V>(l: seq<Entry<K, V>>, capacity: nat, k: K)
    requires Position(l, k) < capacity || Lookup(l, k).None?
    ensures Lookup(Take(l, capacity), k) == Lookup(l, k)
  {
    if |l| > 0 && capacity > 0 && l[0].key != k {
      LookupTake(l[1..], capacity - 1, k);
      assert Take(l, capacity)[1..] == Take(l[1..], capacity - 1);
    }
  }

  lemma {:induction false} WithoutBeyond<K, V>(l: seq<Entry<K, V>>, capacity: nat, k: K)
    requires capacity <= Position(l, k)
    ensures Take(Without(l, k), capacity) == Take(l, capacity)
    ensures Lookup(Take(l, capacity), k).None?
  {
    if |l| > 0 && capacity > 0 {
      WithoutBeyond(l[1..], capacity - 1, k);
      assert Take(l, capacity)[1..] == Take(l[1..], capacity - 1);
      assert Without(l, k) == [l[0]] + Without(l[1..], k);
    }
  }

  /** A bounded map is the front of the unbounded one, whatever keys are used. */
  lemma BoundedTouch<K, V>(l: seq<Entry<K, V>>, capacity: nat, k: K, v: V)
    requires capacity > 0
    ensures Put(Take(l, capacity), capacity, k, v) == Take(Touch(l, k, v), capacity)
  {
    hide Without, Position, Lookup;
    PositionFinds(l, k);
    if Position(l, k) >= capacity {
      WithoutBeyond(l, capacity, k);
      WithoutAbsent(Take(l, capacity), k);
    } else if Lookup(l, k).None? {
      LookupTake(l, capacity, k);
      WithoutAbsent(l, k);
      WithoutAbsent(Take(l, capacity), k);
    } else {
      WithoutTake(l, capacity, k);
    }
  }

  lemma {:induction false} WithoutSize<K, V>(l: seq<Entry<K, V>>, k: K)
    ensures |Without(l, k)| == if Lookup(l, k).Some? then |l| - 1 else |l|
  {
    if |l| > 0 {
      WithoutSize(l[1..], k);
    }
  }

  /** Looking up a present key reorders as inserting it again would. */
  lemma GotIsPut<K, V>(l: seq<Entry<K, V>>, capacity: nat, k: K)
    requires |l| <= capacity && Lookup(l, k).Some?
    ensures Got(l, k) == Put(l, capacity, k, Lookup(l, k).value)
  {
    WithoutSize(l, k);
  }

  // ----- what an LRU set remembers -----

  /** The keys in `uses`, most recently used first. */
  function Recency<K(==)>(uses: seq<K>): seq<Entry<K, ()>> {
    if |uses| == 0 then [] else Touch(Recency(uses[..|uses| - 1]), uses[|uses| - 1], ())
  }

  /** The keys used after the last use of `k`. */
  ghost function UsedSince<K>(uses: seq<K>, k: K): set<K> {
    if |uses| == 0 || uses[|uses| - 1] == k then {}
    else UsedSince(uses[..|uses| - 1], k) + {uses[|uses| - 1]}
  }

  ghost function FrontKeys<K, V>(l: seq<Entry<K, V>>, n: nat): set<K>
    requires n <= |l|
  {
    set i | 0 <= i < n :: l[i].key
  }

  ghost function Ahead<K, V>(l: seq<Entry<K, V>>, k: K): set<K> {
    FrontKeys(l, Position(l, k))
  }

  lemma FrontKeysStep<K, V>(l: seq<Entry<K, V>>, n: nat)
    requires 0 < n <= |l|
    ensures FrontKeys(l, n) == FrontKeys(l, n - 1) + {l[n - 1].key}
  {
    forall y | y in FrontKeys(l, n - 1) + {l[n - 1].key} ensures y in FrontKeys(l, n) {
      if y == l[n - 1].key {
      } else {
        var i :| 0 <= i < n - 1 && l[i].key == y;
      }
    }
  }

  lemma {:induction false} FrontKeysSize<K, V>(l: seq<Entry<K, V>>, n: nat)
    requires DistinctKeys(l) && n <= |l|
    ensures |FrontKeys(l, n)| == n
  {
    if n > 0 {
      FrontKeysSize(l, n - 1);
      FrontKeysStep(l, n);
    }
  }

  lemma {:induction false} AheadWithout<K, V>(l: seq<Entry<K, V>>, k: K, x: K)
    requires DistinctKeys(l) && k != x
    ensures Ahead(Without(l, k), x) == Ahead(l, x) - {k}
  {
    if |l| > 0 {
      AheadCons(l, x);
      if l[0].key == k {
        assert forall i :: 1 <= i < |l| ==> l[i].key != k;
      } else {
        AheadWithout(l[1..], k, x);
        AheadCons(Without(l, k), x);
        assert Without(l, k)[1..] == Without(l[1..], k);
      }
    }
  }

  lemma AheadCons<K, V>(l: seq<Entry<K, V>>, x: K)
    requires |l| > 0
    ensures Ahead(l, x) == if l[0].key == x then {} else {l[0].key} + Ahead(l[1..], x)
  {
    if l[0].key != x {
      var p := Position(l, x);
      forall y | y in {l[0].key} + Ahead(l[1..], x) ensures y in Ahead(l, x) {
        if y in Ahead(l[1..], x) {
          var i :| 0 <= i < Position(l[1..], x) && l[1..][i].key == y;
          assert l[i + 1].key == y && 0 <= i + 1 < p;
        } else {
          assert l[0].key == y;
        }
      }
      forall y | y in Ahead(l, x) ensures y in {l[0].key} + Ahead(l[1..], x) {
        var i :| 0 <= i < p && l[i].key == y;
        assert i > 0 ==> l[1..][i - 1].key == y;
      }
    }
  }

  lemma {:induction false} RecencyKeys<K>(uses: seq<K>, k: K)
    ensures DistinctKeys(Recency(uses))
    ensures Lookup(Recency(uses), k).Some? <==> k in uses
    ensures k in uses ==> Ahead(Recency(uses), k) == UsedSince(uses, k)
  {
    hide Lookup, Without, DistinctKeys;
    if |uses| == 0 {
      assert DistinctKeys<K, ()>([]) by { EmptyDistinct<K>(); }
      EmptyLookup(k);
    } else {
      var init, last := uses[..|uses| - 1], uses[|uses| - 1];
      assert uses == init + [last];
      RecencyKeys(init, k);
      TouchDistinct(Recency(init), last, ());
      TouchLookup(Recency(init), last, (), k);
      AheadCons(Recency(uses), k);
      if last != k && k in uses {
        AheadWithout(Recency(init), last, k);
        assert Recency(uses)[1..] == Without(Recency(init), last);
      }
    }
  }

  lemma EmptyDistinct<K>()
    ensures DistinctKeys<K, ()>([])
  {
  }

  lemma EmptyLookup<K>(k: K)
    ensures Lookup<K, ()>([], k).None?
  {
  }

  /** A bounded set remembers a key exactly while fewer than `capacity` other keys have been
      used since. */
  lemma RemembersExactly<K>(uses: seq<K>, capacity: nat, k: K)
    ensures Lookup(Take(Recency(uses), capacity), k).Some? <==> k in uses && |UsedSince(uses, k)| < capacity
  {
    hide Lookup, Without, UsedSince, Recency;
    var l := Recency(uses);
    RecencyKeys(uses, k);
    PositionFinds(l, k);
    if k in uses {
      FrontKeysSize(l, Position(l, k));
    }
    if Position(l, k) < capacity {
      LookupTake(l, capacity, k);
    } else {
      WithoutBeyond(l, capacity, k);
    }
  }

  // ----- what an LRU map holds -----

  /** A map without its values. */
  function KeysOf<K, V>(l: seq<Entry<K, V>>): seq<Entry<K, ()>> {
    seq(|l|, i requires 0 <= i < |l| => Entry(l[i].key, ()))
  }

  lemma {:induction false} KeysWithout<K, V>(l: seq<Entry<K, V>>, k: K)
    ensures KeysOf(Without(l, k)) == Without(KeysOf(l), k)
  {
    if |l| > 0 {
      KeysWithout(l[1..], k);
      assert KeysOf(l)[1..] == KeysOf(l[1..]);
      if l[0].key != k {
        assert KeysOf(Without(l, k)) == [Entry(l[0].key, ())] + KeysOf(Without(l[1..], k));
      }
    }
  }

  lemma {:induction false} KeysLookup<K, V>(l: seq<Entry<K, V>>, k: K)
    ensures Lookup(KeysOf(l), k).Some? <==> Lookup(l, k).Some?
  {
    if |l| > 0 && l[0].key != k {
      KeysLookup(l[1..], k);
      assert KeysOf(l)[1..] == KeysOf(l[1..]);
    }
  }

  lemma KeysPut<K, V>(l: seq<Entry<K, V>>, capacity: nat, k: K, v: V)
    ensures KeysOf(Put(l, capacity, k, v)) == Put(KeysOf(l), capacity, k, ())
  {
    hide Without;
    KeysWithout(l, k);
    assert KeysOf(Touch(l, k, v)) == Touch(KeysOf(l), k, ());
  }

  /** Used, and fewer than `capacity` other keys used since. */
  ghost predicate RememberedOf<K>(uses: seq<K>, capacity: nat, k: K) {
    k in uses && |UsedSince(uses, k)| < capacity
  }

  /** The keys of the map are the most recently used ones. */
  ghost predicate HoldsRecent<K, V>(l: seq<Entry<K, V>>, capacity: nat, uses: seq<K>) {
    KeysOf(l) == Take(Recency(uses), capacity)
  }

  lemma RecentIsFound<K, V>(l: seq<Entry<K, V>>, capacity: nat, uses: seq<K>, k: K)
    requires HoldsRecent(l, capacity, uses)
    ensures Lookup(l, k).Some? <==> RememberedOf(uses, capacity, k)
  {
    hide Lookup, Recency, UsedSince;
    KeysLookup(l, k);
    RemembersExactly(uses, capacity, k);
  }

  lemma PutUses<K, V>(l: seq<Entry<K, V>>, capacity: nat, uses: seq<K>, k: K, v: V)
    requires HoldsRecent(l, capacity, uses) && capacity > 0
    ensures HoldsRecent(Put(l, capacity, k, v), capacity, uses + [k])
  {
    hide Put, Touch;
    KeysPut(l, capacity, k, v);
    assert (uses + [k])[..|uses|] == uses;
    BoundedTouch(Recency(uses), capacity, k, ());
  }

  lemma GotUses<K, V>(l: seq<Entry<K, V>>, capacity: nat, uses: seq<K>, k: K)
    requires HoldsRecent(l, capacity, uses) && capacity > 0
    ensures HoldsRecent(Got(l, k), capacity, if RememberedOf(uses, capacity, k) then uses + [k] else uses)
  {
    hide Put, Touch, Lookup, Recency, RememberedOf;
    RecentIsFound(l, capacity, uses, k);
    if Lookup(l, k).Some? {
      assert |l| == |KeysOf(l)| <= capacity;
      GotIsPut(l, capacity, k);
      PutUses(l, capacity, uses, k, Lookup(l, k).value);
    }
  }

  /** What is found after an insertion is the new value or what was there. */
  lemma PutLookup<K, V>(l: seq<Entry<K, V>>, capacity: nat, k: K, v: V, x: K)
    ensures Lookup(Put(l, capacity, k, v), x).Some? ==>
              Lookup(Put(l, capacity, k, v), x) == if x == k then Some(v) else Lookup(l, x)
  {
    hide Touch, Lookup, Position;
    TouchLookup(l, k, v, x);
    var t := Touch(l, k, v);
    PositionFinds(t, x);
    if Position(t, x) < capacity {
      LookupTake(t, capacity, x);
    } else {
      WithoutBeyond(t, capacity, x);
    }
  }
}
