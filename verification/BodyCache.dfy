/** The in-memory cache of full blocks, by hash and by number (src/shared.rs). */
module BodyCache {
  import opened Chain
  import opened Lru

  const BODY_CACHE_CAPACITY: nat := 512

  /** A header stands for its own hash; blocks with one header may differ in their bodies. */
  datatype Head = Head(number: nat, seal: nat)
  datatype FullBlock = FullBlock(header: Head, body: nat)

  datatype Indexes = Indexes(byHash: seq<Entry<Head, FullBlock>>, byNumber: seq<Entry<nat, Head>>)

  datatype Op = CacheBlock(block: FullBlock) | GetByHash(hash: Head) | GetByNumber(number: nat)

  function AnswerByHash(c: Indexes, hash: Head): Option<FullBlock> {
    Lookup(c.byHash, hash)
  }

  function AnswerByNumber(c: Indexes, number: nat): Option<FullBlock> {
    match Lookup(c.byNumber, number)
    case None => None
    case Some(hash) => Lookup(c.byHash, hash)
  }

  function Step(c: Indexes, op: Op): Indexes {
    match op
    case CacheBlock(b) =>
      Indexes(Put(c.byHash, BODY_CACHE_CAPACITY, b.header, b),
              Put(c.byNumber, BODY_CACHE_CAPACITY, b.header.number, b.header))
    case GetByHash(hash) => c.(byHash := Got(c.byHash, hash))
    case GetByNumber(number) =>
      match Lookup(c.byNumber, number)
      case None => c
      case Some(hash) => Indexes(Got(c.byHash, hash), Got(c.byNumber, number))
  }

  class BodyCache {
    const byHash: LruMap<Head, FullBlock>
    const byNumber: LruMap<nat, Head>

    ghost predicate Valid() {
      byHash.capacity == BODY_CACHE_CAPACITY && byNumber.capacity == BODY_CACHE_CAPACITY
    }

    ghost function View(): Indexes
      reads byHash, byNumber
    {
      Indexes(byHash.entries, byNumber.entries)
    }

    constructor ()
      ensures Valid() && fresh(byHash) && fresh(byNumber) && View() == Indexes([], [])
    {
      byHash := new LruMap(BODY_CACHE_CAPACITY);
      byNumber := new LruMap(BODY_CACHE_CAPACITY);
    }

    method Cache(block: FullBlock)
      requires Valid()
      modifies byHash, byNumber
      ensures View() == Step(old(View()), CacheBlock(block))
    {
      byNumber.Insert(block.header.number, block.header);
      byHash.Insert(block.header, block);
    }

    method BlockByHash(hash: Head) returns (r: Option<FullBlock>)
      requires Valid()
      modifies byHash
      ensures r == AnswerByHash(old(View()), hash) && View() == Step(old(View()), GetByHash(hash))
    {
      r := byHash.Get(hash);
    }

    method BlockByNumber(number: nat) returns (r: Option<FullBlock>)
      requires Valid()
      modifies byHash, byNumber
      ensures r == AnswerByNumber(old(View()), number) && View() == Step(old(View()), GetByNumber(number))
    {
      var hash := byNumber.Get(number);
      if hash.Some? {
        r := byHash.Get(hash.value);
      } else {
        r := None;
      }
    }
  }

  // ----- what was cached -----

  function Run(ops: seq<Op>): Indexes {
    if |ops| == 0 then Indexes([], []) else Step(Run(ops[..|ops| - 1]), ops[|ops| - 1])
  }

  function LastWithHash(ops: seq<Op>, hash: Head): Option<FullBlock> {
    if |ops| == 0 then None
    else
      var op := ops[|ops| - 1];
      if op.CacheBlock? && op.block.header == hash then Some(op.block) else LastWithHash(ops[..|ops| - 1], hash)
  }

  function LastAtNumber(ops: seq<Op>, number: nat): Option<FullBlock> {
    if |ops| == 0 then None
    else
      var op := ops[|ops| - 1];
      if op.CacheBlock? && op.block.header.number == number then Some(op.block)
      else LastAtNumber(ops[..|ops| - 1], number)
  }

  /** The latest block of a number is the latest block with its hash. */
  lemma {:induction false} LatestAgree(ops: seq<Op>, number: nat)
    requires LastAtNumber(ops, number).Some?
    ensures var b := LastAtNumber(ops, number).value;
            b.header.number == number && LastWithHash(ops, b.header) == Some(b)
  {
    var op := ops[|ops| - 1];
    if !(op.CacheBlock? && op.block.header.number == number) {
      LatestAgree(ops[..|ops| - 1], number);
    }
  }

  /** Everything an index holds is the latest that was cached under its key. */
  ghost predicate Fresh(ops: seq<Op>, c: Indexes) {
    && DistinctKeys(c.byHash) && DistinctKeys(c.byNumber)
    && (forall e :: e in c.byHash ==> LastWithHash(ops, e.key) == Some(e.value))
    && (forall e :: e in c.byNumber ==>
                      LastAtNumber(ops, e.key).Some? && LastAtNumber(ops, e.key).value.header == e.value)
  }

  lemma LookupMember<K, V>(l: seq<Entry<K, V>>, k: K)
    requires Lookup(l, k).Some?
    ensures Entry(k, Lookup(l, k).value) in l
  {
    PositionFinds(l, k);
  }

  /** Touching a key keeps all other entries and nothing else. */
  lemma TouchMembers<K, V>(l: seq<Entry<K, V>>, capacity: nat, k: K, v: V)
    requires DistinctKeys(l)
    ensures DistinctKeys(Put(l, capacity, k, v))
    ensures forall e :: e in Put(l, capacity, k, v) ==> e == Entry(k, v) || (e in l && e.key != k)
  {
    TouchDistinct(l, k, v);
    WithoutDistinct(l, k);
    WithoutMembers(l, k);
  }

  lemma GotMembers<K, V>(l: seq<Entry<K, V>>, k: K)
    requires DistinctKeys(l)
    ensures DistinctKeys(Got(l, k))
    ensures forall e :: e in Got(l, k) ==> e in l
  {
    if Lookup(l, k).Some? {
      LookupMember(l, k);
      TouchDistinct(l, k, Lookup(l, k).value);
      WithoutMembers(l, k);
    }
  }

  lemma {:induction false} RunIsFresh(ops: seq<Op>)
    ensures Fresh(ops, Run(ops))
  {
    hide Lookup, Put, Got, DistinctKeys;
    if |ops| == 0 {
      EmptyIsFresh();
    } else {
      var init, op := ops[..|ops| - 1], ops[|ops| - 1];
      RunIsFresh(init);
      var c := Run(init);
      match op {
        case CacheBlock(b) =>
          TouchMembers(c.byHash, BODY_CACHE_CAPACITY, b.header, b);
          TouchMembers(c.byNumber, BODY_CACHE_CAPACITY, b.header.number, b.header);
        case GetByHash(hash) =>
          GotMembers(c.byHash, hash);
        case GetByNumber(number) =>
          GotMembers(c.byNumber, number);
          if Lookup(c.byNumber, number).Some? {
            GotMembers(c.byHash, Lookup(c.byNumber, number).value);
          }
      }
    }
  }

  lemma EmptyIsFresh()
    ensures Fresh([], Indexes([], []))
  {
  }

  /** After any sequence of inserts and lookups, a hit is the latest block cached under that
      hash or at that number, although the two indexes evict independently. */
  lemma HitsAreLatest(ops: seq<Op>, hash: Head, number: nat)
    ensures AnswerByHash(Run(ops), hash).Some? ==> AnswerByHash(Run(ops), hash) == LastWithHash(ops, hash)
    ensures AnswerByNumber(Run(ops), number).Some? ==> AnswerByNumber(Run(ops), number) == LastAtNumber(ops, number)
  {
    hide Run, DistinctKeys, Lookup;
    RunIsFresh(ops);
    var c := Run(ops);
    if Lookup(c.byHash, hash).Some? {
      LookupMember(c.byHash, hash);
    }
    if Lookup(c.byNumber, number).Some? {
      LookupMember(c.byNumber, number);
      LatestAgree(ops, number);
      var h := Lookup(c.byNumber, number).value;
      if Lookup(c.byHash, h).Some? {
        LookupMember(c.byHash, h);
      }
    }
  }

  // ----- how long a block stays -----

  lemma {:induction false} WithoutPosition<K, V>(l: seq<Entry<K, V>>, x: K, k: K)
    requires x != k
    ensures Position(Without(l, x), k) <= Position(l, k)
  {
    if |l| > 0 && l[0].key != x && l[0].key != k {
      WithoutPosition(l[1..], x, k);
      assert Without(l, x)[1..] == Without(l[1..], x);
    }
  }

  /** Using any key pushes another one back by at most one place. */
  lemma TouchPosition<K, V>(l: seq<Entry<K, V>>, x: K, v: V, k: K)
    ensures Position(Touch(l, x, v), k) <= Position(l, k) + 1
    ensures Lookup(l, k).Some? ==> Lookup(Touch(l, x, v), k).Some?
  {
    assert Touch(l, x, v)[1..] == Without(l, x);
    TouchLookup(l, x, v, k);
    if x != k {
      WithoutPosition(l, x, k);
    }
  }

  lemma PutPosition<K, V>(l: seq<Entry<K, V>>, capacity: nat, x: K, v: V, k: K)
    requires Lookup(l, k).Some? && Position(l, k) + 1 < capacity
    ensures Lookup(Put(l, capacity, x, v), k).Some?
    ensures Position(Put(l, capacity, x, v), k) <= Position(l, k) + 1
  {
    hide Touch, Lookup, Position, Take;
    TouchPosition(l, x, v, k);
    PositionTake(Touch(l, x, v), capacity, k);
    LookupTake(Touch(l, x, v), capacity, k);
  }

  lemma {:induction false} PositionTake<K, V>(l: seq<Entry<K, V>>, capacity: nat, k: K)
    requires Position(l, k) < capacity
    ensures Position(Take(l, capacity), k) == Position(l, k)
  {
    if |l| > 0 && l[0].key != k {
      PositionTake(l[1..], capacity - 1, k);
      assert Take(l, capacity)[1..] == Take(l[1..], capacity - 1);
    }
  }

  lemma GotPosition<K, V>(l: seq<Entry<K, V>>, x: K, k: K)
    requires Lookup(l, k).Some?
    ensures Lookup(Got(l, x), k).Some?
    ensures Position(Got(l, x), k) <= Position(l, k) + 1
  {
    if Lookup(l, x).Some? {
      TouchPosition(l, x, Lookup(l, x).value, k);
    }
  }

  /** The keys of a block are at most `age` uses old in both indexes. */
  ghost predicate Within(c: Indexes, hash: Head, age: nat) {
    && Lookup(c.byHash, hash).Some? && Position(c.byHash, hash) <= age
    && Lookup(c.byNumber, hash.number).Some? && Position(c.byNumber, hash.number) <= age
  }

  lemma AgeStep(c: Indexes, op: Op, hash: Head, age: nat)
    requires Within(c, hash, age) && age + 1 < BODY_CACHE_CAPACITY
    ensures Within(Step(c, op), hash, age + 1)
  {
    hide Lookup, Position, Put, Got;
    match op
    case CacheBlock(b) =>
      PutPosition(c.byHash, BODY_CACHE_CAPACITY, b.header, b, hash);
      PutPosition(c.byNumber, BODY_CACHE_CAPACITY, b.header.number, b.header, hash.number);
    case GetByHash(h) =>
      GotPosition(c.byHash, h, hash);
    case GetByNumber(n) =>
      GotPosition(c.byNumber, n, hash.number);
      if Lookup(c.byNumber, n).Some? {
        GotPosition(c.byHash, Lookup(c.byNumber, n).value, hash);
      }
  }

  lemma JustCached(c: Indexes, b: FullBlock)
    ensures Within(Step(c, CacheBlock(b)), b.header, 0)
  {
  }

  lemma RunAppend(ops: seq<Op>, op: Op)
    ensures Run(ops + [op]) == Step(Run(ops), op)
  {
    assert (ops + [op])[..|ops|] == ops;
  }

  lemma {:induction false} AgeRun(ops: seq<Op>, b: FullBlock, later: seq<Op>)
    requires |later| < BODY_CACHE_CAPACITY
    ensures Within(Run(ops + [CacheBlock(b)] + later), b.header, |later|)
  {
    hide Within, Step, Run;
    if |later| == 0 {
      assert ops + [CacheBlock(b)] + later == ops + [CacheBlock(b)];
      RunAppend(ops, CacheBlock(b));
      JustCached(Run(ops), b);
    } else {
      var init, last := later[..|later| - 1], later[|later| - 1];
      AgeRun(ops, b, init);
      assert ops + [CacheBlock(b)] + later == (ops + [CacheBlock(b)] + init) + [last];
      RunAppend(ops + [CacheBlock(b)] + init, last);
      AgeStep(Run(ops + [CacheBlock(b)] + init), last, b.header, |later| - 1);
    }
  }

  /** A cached block is found by its hash for at least the next 511 operations, and by its
      number as long as no other hash is cached at that number. */
  lemma CachedBlockStays(ops: seq<Op>, b: FullBlock, later: seq<Op>)
    requires |later| < BODY_CACHE_CAPACITY
    ensures var all, n := ops + [CacheBlock(b)] + later, b.header.number;
            && AnswerByHash(Run(all), b.header).Some?
            && AnswerByHash(Run(all), b.header) == LastWithHash(all, b.header)
            && LastAtNumber(all, n).Some?
            && (LastAtNumber(all, n).value.header == b.header ==> AnswerByNumber(Run(all), n) == LastAtNumber(all, n))
  {
    hide Run, LastWithHash, LastAtNumber, Lookup, DistinctKeys;
    var all, n := ops + [CacheBlock(b)] + later, b.header.number;
    AgeRun(ops, b, later);
    HitsAreLatest(all, b.header, n);
    RunIsFresh(all);
    LookupMember(Run(all).byNumber, n);
  }

  // ----- exactly what is found -----

  ghost predicate Remembered<K>(uses: seq<K>, k: K) {
    RememberedOf(uses, 512, k)
  }

  /** The numbers used so far: those cached and those looked up while still remembered. */
  ghost function NumberUses(ops: seq<Op>): seq<nat> {
    if |ops| == 0 then []
    else
      var before, op := NumberUses(ops[..|ops| - 1]), ops[|ops| - 1];
      match op
      case CacheBlock(b) => before + [b.header.number]
      case GetByHash(_) => before
      case GetByNumber(n) => before + (if Remembered(before, n) then [n] else [])
  }

  /** The hashes used so far: those cached, and those looked up while still remembered, directly
      or through the number they were cached last for. */
  ghost function HashUses(ops: seq<Op>): seq<Head> {
    if |ops| == 0 then []
    else
      var init, op := ops[..|ops| - 1], ops[|ops| - 1];
      var before := HashUses(init);
      match op
      case CacheBlock(b) => before + [b.header]
      case GetByHash(h) => before + (if Remembered(before, h) then [h] else [])
      case GetByNumber(n) =>
        if Remembered(NumberUses(init), n) && LastAtNumber(init, n).Some?
           && Remembered(before, LastAtNumber(init, n).value.header)
        then before + [LastAtNumber(init, n).value.header] else before
  }

  lemma {:induction false} RunHoldsRecent(ops: seq<Op>)
    ensures HoldsRecent(Run(ops).byHash, 512, HashUses(ops)) && HoldsRecent(Run(ops).byNumber, 512, NumberUses(ops))
  {
    hide HoldsRecent, RememberedOf, Put, Got, Lookup, LastAtNumber;
    if |ops| == 0 {
      NothingHeld();
    } else {
      var init, op := ops[..|ops| - 1], ops[|ops| - 1];
      var c := Run(init);
      RunHoldsRecent(init);
      match op {
        case CacheBlock(b) =>
          PutUses(c.byHash, 512, HashUses(init), b.header, b);
          PutUses(c.byNumber, 512, NumberUses(init), b.header.number, b.header);
        case GetByHash(h) =>
          GotUses(c.byHash, 512, HashUses(init), h);
          assert HashUses(init) + [] == HashUses(init);
        case GetByNumber(n) =>
          RecentIsFound(c.byNumber, 512, NumberUses(init), n);
          GotUses(c.byNumber, 512, NumberUses(init), n);
          assert NumberUses(init) + [] == NumberUses(init);
          NumberNamesLatest(init, n);
          if Lookup(c.byNumber, n).Some? {
            GotUses(c.byHash, 512, HashUses(init), Lookup(c.byNumber, n).value);
          }
      }
    }
  }

  lemma NothingHeld()
    ensures HoldsRecent<Head, FullBlock>([], 512, []) && HoldsRecent<nat, Head>([], 512, [])
  {
  }

  /** A number that is held names the hash of the block cached last for it. */
  lemma NumberNamesLatest(ops: seq<Op>, number: nat)
    ensures var found := Lookup(Run(ops).byNumber, number);
            found.Some? ==> LastAtNumber(ops, number).Some? && found.value == LastAtNumber(ops, number).value.header
  {
    hide Run, Lookup, LastAtNumber;
    RunIsFresh(ops);
    if Lookup(Run(ops).byNumber, number).Some? {
      LookupMember(Run(ops).byNumber, number);
    }
  }

  /** A block is found by hash exactly when fewer than 512 other hashes were used since its own,
      and by number exactly when that holds for the number and for the hash of the block cached
      last for it. */
  lemma FoundExactly(ops: seq<Op>, hash: Head, number: nat)
    ensures AnswerByHash(Run(ops), hash).Some? <==> Remembered(HashUses(ops), hash)
    ensures AnswerByNumber(Run(ops), number).Some? <==>
            && Remembered(NumberUses(ops), number) && LastAtNumber(ops, number).Some?
            && Remembered(HashUses(ops), LastAtNumber(ops, number).value.header)
  {
    hide Run, Lookup, RememberedOf, LastAtNumber, HashUses, NumberUses, HoldsRecent;
    RunHoldsRecent(ops);
    RecentIsFound(Run(ops).byHash, 512, HashUses(ops), hash);
    RecentIsFound(Run(ops).byNumber, 512, NumberUses(ops), number);
    NumberNamesLatest(ops, number);
    if Lookup(Run(ops).byNumber, number).Some? {
      RecentIsFound(Run(ops).byHash, 512, HashUses(ops), Lookup(Run(ops).byNumber, number).value);
    }
  }
}
