/** Submission workers that claim a slot, then send the block or fail and give the slot back,
in any interleaving of their atomic calls. */
module GuardRuns {
  import opened Chain
  import opened Lru
  import opened MinedBlockGuard

  type Slot = (nat, Hash)
  type Worker = nat

  datatype Event = Claim(worker: Worker, number: nat, parent: Hash) | Send(worker: Worker) | Fail(worker: Worker)

  /** `recorded` is what an unbounded guard would hold, `used` the heights of all calls made. */
  datatype System = System(
    cache: Cache, pending: map<Worker, Slot>, sent: seq<Slot>, recorded: set<Slot>, used: seq<nat>)

  const INITIAL := System([], map[], [], {}, [])

  /** A busy worker claims nothing, an idle one has nothing to finish. */
  predicate Enabled(s: System, e: Event) {
    if e.Claim? then e.worker !in s.pending else e.worker in s.pending
  }

  function Step(s: System, e: Event): System {
    if !Enabled(s, e) then s
    else
      match e
      case Claim(worker, number, parent) =>
        System(Recorded(s.cache, RECENT_MINED_BLOCKS_CACHE_SIZE, number, parent),
               if Free(s.cache, number, parent) then s.pending[worker := (number, parent)] else s.pending,
               s.sent, s.recorded + {(number, parent)}, s.used + [number])
      case Send(worker) =>
        s.(pending := s.pending - {worker}, sent := s.sent + [s.pending[worker]])
      case Fail(worker) =>
        var slot := s.pending[worker];
        System(Forgotten(s.cache, RECENT_MINED_BLOCKS_CACHE_SIZE, slot.0, slot.1),
               s.pending - {worker}, s.sent, s.recorded - {slot}, s.used + [slot.0])
  }

  function Run(es: seq<Event>): System {
    if |es| == 0 then INITIAL else Step(Run(es[..|es| - 1]), es[|es| - 1])
  }

  /** The height a step calls the guard with. */
  function CallHeight(s: System, e: Event): Option<nat> {
    if !Enabled(s, e) || e.Send? then None
    else if e.Claim? then Some(e.number)
    else Some(s.pending[e.worker].0)
  }

  ghost predicate LegalStep(s: System, e: Event, reach: nat) {
    CallHeight(s, e).Some? ==> forall h :: h in s.used ==> h <= CallHeight(s, e).value + reach
  }

  ghost predicate Legal(es: seq<Event>, reach: nat) {
    |es| > 0 ==> Legal(es[..|es| - 1], reach) && LegalStep(Run(es[..|es| - 1]), es[|es| - 1], reach)
  }

  // ----- the unbounded cache behind a reachable state -----

  ghost predicate Holds(u: Cache, slot: Slot) {
    var parents := Lookup(u, slot.0);
    parents.Some? && slot.1 in parents.value
  }

  ghost predicate CacheInv(s: System, u: Cache) {
    && DistinctKeys(u) && Spaced(u, REACH)
    && s.cache == Take(u, RECENT_MINED_BLOCKS_CACHE_SIZE)
    && (forall slot: Slot :: slot in s.recorded <==> Holds(u, slot))
    && (forall i :: 0 <= i < |u| ==> u[i].key in s.used)
  }

  lemma ClaimHolds(u: Cache, number: nat, parent: Hash, slot: Slot)
    ensures Holds(Touch(u, number, ParentsAfterClaim(u, number, parent)), slot) <==>
            Holds(u, slot) || slot == (number, parent)
  {
    TouchLookup(u, number, ParentsAfterClaim(u, number, parent), slot.0);
  }

  lemma ForgetHolds(u: Cache, number: nat, parent: Hash, slot: Slot)
    requires Lookup(u, number).Some?
    ensures Holds(Touch(u, number, Retained(Lookup(u, number).value, parent)), slot) <==>
            Holds(u, slot) && slot != (number, parent)
  {
    TouchLookup(u, number, Retained(Lookup(u, number).value, parent), slot.0);
    RetainedMembers(Lookup(u, number).value, parent);
  }

  lemma TouchKeysUsed(u: Cache, number: nat, parents: seq<Hash>, used: seq<nat>)
    requires forall i :: 0 <= i < |u| ==> u[i].key in used
    ensures forall i :: 0 <= i < |Touch(u, number, parents)| ==> Touch(u, number, parents)[i].key in used + [number]
  {
    WithoutMembers(u, number);
    var r := Without(u, number);
    forall i | 0 <= i < |r| ensures r[i].key in used {
      assert r[i] in r;
    }
  }

  lemma CacheStep(s: System, u: Cache, e: Event) returns (u': Cache)
    requires CacheInv(s, u) && LegalStep(s, e, REACH)
    requires e.Fail? && Enabled(s, e) ==> s.pending[e.worker] in s.recorded
    ensures CacheInv(Step(s, e), u')
  {
    hide DistinctKeys, Spaced, Recorded, Forgotten, Free, Touch, Take, Holds, ParentsAfterClaim, Retained;
    u' := u;
    if Enabled(s, e) && !e.Send? {
      var number := CallHeight(s, e).value;
      assert InReach(u, number, REACH);
      if e.Claim? {
        BoundedClaim(u, number, e.parent);
        var parents := ParentsAfterClaim(u, number, e.parent);
        u' := Touch(u, number, parents);
        TouchKeysUsed(u, number, parents, s.used);
        forall slot: Slot ensures slot in Step(s, e).recorded <==> Holds(u', slot) {
          ClaimHolds(u, number, e.parent, slot);
        }
      } else {
        var parent := s.pending[e.worker].1;
        BoundedForget(u, number, parent);
        HeldIsFound(u, s.pending[e.worker]);
        var parents := Retained(Lookup(u, number).value, parent);
        u' := Touch(u, number, parents);
        TouchKeysUsed(u, number, parents, s.used);
        forall slot: Slot ensures slot in Step(s, e).recorded <==> Holds(u', slot) {
          ForgetHolds(u, number, parent, slot);
        }
      }
    }
  }

  lemma HeldIsFound(u: Cache, slot: Slot)
    requires Holds(u, slot)
    ensures Lookup(u, slot.0).Some?
  {
  }

  /** The bounded cache answers a claim as the unbounded set does. */
  lemma AnswerIsExact(s: System, u: Cache, number: nat, parent: Hash)
    requires CacheInv(s, u) && forall h :: h in s.used ==> h <= number + REACH
    ensures Free(s.cache, number, parent) <==> (number, parent) !in s.recorded
  {
    hide DistinctKeys, Spaced, Recorded, Touch, Take, ParentsAfterClaim, Lookup;
    assert InReach(u, number, REACH);
    BoundedClaim(u, number, parent);
    assert Holds(u, (number, parent)) <==> !Free(u, number, parent);
  }

  // ----- one holder per slot -----

  /** Every recorded slot that is pending or sent is so for one worker only. */
  ghost predicate OneHolder(s: System) {
    && (forall w :: w in s.pending ==> s.pending[w] in s.recorded && s.pending[w] !in s.sent)
    && (forall w, v :: w in s.pending && v in s.pending && w != v ==> s.pending[w] != s.pending[v])
    && (forall i :: 0 <= i < |s.sent| ==> s.sent[i] in s.recorded)
    && SentOnce(s.sent)
  }

  ghost predicate SentOnce(sent: seq<Slot>) {
    forall i, j :: 0 <= i < j < |sent| ==> sent[i] != sent[j]
  }

  lemma HolderStep(s: System, u: Cache, e: Event)
    requires CacheInv(s, u) && OneHolder(s) && LegalStep(s, e, REACH)
    ensures OneHolder(Step(s, e))
  {
    hide CacheInv, Recorded, Forgotten, Free;
    if Enabled(s, e) && e.Claim? {
      AnswerIsExact(s, u, e.number, e.parent);
    }
  }

  lemma {:induction false} InvRun(es: seq<Event>) returns (u: Cache)
    requires Legal(es, REACH)
    ensures CacheInv(Run(es), u) && OneHolder(Run(es))
  {
    if |es| == 0 {
      u := [];
    } else {
      var init, e := es[..|es| - 1], es[|es| - 1];
      var before := InvRun(init);
      HolderStep(Run(init), before, e);
      u := CacheStep(Run(init), before, e);
    }
  }

  /** Over every interleaving, a claim succeeds exactly when an unbounded guard holds no such slot. */
  lemma ClaimsAreExact(es: seq<Event>, number: nat, parent: Hash)
    requires Legal(es, REACH) && forall h :: h in Run(es).used ==> h <= number + REACH
    ensures Free(Run(es).cache, number, parent) <==> (number, parent) !in Run(es).recorded
  {
    var u := InvRun(es);
    AnswerIsExact(Run(es), u, number, parent);
  }

  /** Over every interleaving, no slot is sent twice. */
  lemma NoSlotIsSentTwice(es: seq<Event>)
    requires Legal(es, REACH)
    ensures SentOnce(Run(es).sent)
  {
    var u := InvRun(es);
  }

  // ----- a run that is one height out of reach -----

  /** 50, then the fifty heights below and the fifty heights above it, then 50 again. */
  function SpreadHeight(i: nat): nat {
    if i == 0 || i == 101 then 50 else if i <= 50 then i - 1 else i
  }

  function SpreadRun(k: nat): seq<Event> {
    if k == 0 then [] else SpreadRun(k - 1) + [Claim(0, SpreadHeight(k - 1), Zero)] + [Send(0)]
  }

  /** The heights of the first `k` claims, latest first. */
  function SpreadCache(k: nat): Cache {
    if k == 0 then [] else [Entry(SpreadHeight(k - 1), [Zero])] + SpreadCache(k - 1)
  }

  lemma {:induction false} SpreadCacheAt(k: nat)
    ensures |SpreadCache(k)| == k
    ensures forall i :: 0 <= i < k ==> SpreadCache(k)[i] == Entry(SpreadHeight(k - 1 - i), [Zero])
  {
    if k > 0 {
      SpreadCacheAt(k - 1);
    }
  }

  /** Each of the 102 heights is missing from the cache when it is claimed. */
  lemma SpreadHeightIsNew(k: nat)
    requires k <= 101
    ensures Lookup(Take(SpreadCache(k), RECENT_MINED_BLOCKS_CACHE_SIZE), SpreadHeight(k)).None?
  {
    hide SpreadCache, Lookup, Position;
    SpreadCacheAt(k);
    var c := Take(SpreadCache(k), RECENT_MINED_BLOCKS_CACHE_SIZE);
    forall i | 0 <= i < |c| ensures c[i].key != SpreadHeight(k) {
      assert c[i].key == SpreadHeight(k - 1 - i);
    }
    PositionFinds(c, SpreadHeight(k));
  }

  lemma NewClaim(c: Cache, number: nat, parent: Hash)
    requires Lookup(Take(c, RECENT_MINED_BLOCKS_CACHE_SIZE), number).None?
    ensures Free(Take(c, RECENT_MINED_BLOCKS_CACHE_SIZE), number, parent)
    ensures Recorded(Take(c, RECENT_MINED_BLOCKS_CACHE_SIZE), RECENT_MINED_BLOCKS_CACHE_SIZE, number, parent) ==
            Take([Entry(number, [parent])] + c, RECENT_MINED_BLOCKS_CACHE_SIZE)
  {
    hide Lookup, Without;
    WithoutAbsent(Take(c, RECENT_MINED_BLOCKS_CACHE_SIZE), number);
  }

  lemma RunAppend(es: seq<Event>, e: Event, reach: nat)
    ensures Run(es + [e]) == Step(Run(es), e)
    ensures Legal(es + [e], reach) <==> Legal(es, reach) && LegalStep(Run(es), e, reach)
  {
    assert (es + [e])[..|es|] == es;
  }

  lemma ClaimThenSend(s: System, c: Cache, number: nat)
    requires s.pending == map[] && s.cache == Take(c, RECENT_MINED_BLOCKS_CACHE_SIZE)
    requires Lookup(s.cache, number).None?
    ensures var t := Step(Step(s, Claim(0, number, Zero)), Send(0));
            && t.cache == Take([Entry(number, [Zero])] + c, RECENT_MINED_BLOCKS_CACHE_SIZE)
            && t.pending == map[] && t.sent == s.sent + [(number, Zero)] && t.used == s.used + [number]
  {
    hide Recorded, Free, Take, Lookup;
    NewClaim(c, number, Zero);
  }

  function SpreadHeights(k: nat): seq<nat> {
    seq(k, i requires 0 <= i => SpreadHeight(i))
  }

  function SpreadSlots(k: nat): seq<Slot> {
    seq(k, i requires 0 <= i => (SpreadHeight(i), Zero))
  }

  lemma SpreadGrows(k: nat)
    ensures SpreadHeights(k + 1) == SpreadHeights(k) + [SpreadHeight(k)]
    ensures SpreadSlots(k + 1) == SpreadSlots(k) + [(SpreadHeight(k), Zero)]
    ensures k <= 101 ==> forall h :: h in SpreadHeights(k) ==> h <= SpreadHeight(k) + REACH + 1
  {
  }

  lemma {:induction false} SpreadState(k: nat)
    requires k <= 102
    ensures Run(SpreadRun(k)).cache == Take(SpreadCache(k), RECENT_MINED_BLOCKS_CACHE_SIZE)
    ensures Run(SpreadRun(k)).pending == map[]
    ensures Run(SpreadRun(k)).sent == SpreadSlots(k) && Run(SpreadRun(k)).used == SpreadHeights(k)
    ensures Legal(SpreadRun(k), REACH + 1)
  {
    hide Step, Take, Lookup, SpreadHeights, SpreadSlots, SpreadHeight, Run, Legal;
    if k > 0 {
      SpreadState(k - 1);
      var before, e := SpreadRun(k - 1), Claim(0, SpreadHeight(k - 1), Zero);
      SpreadHeightIsNew(k - 1);
      ClaimThenSend(Run(before), SpreadCache(k - 1), SpreadHeight(k - 1));
      RunAppend(before, e, REACH + 1);
      RunAppend(before + [e], Send(0), REACH + 1);
      SpreadGrows(k - 1);
      assert LegalStep(Run(before), e, REACH + 1);
      assert LegalStep(Step(Run(before), e), Send(0), REACH + 1);
    } else {
      InitialState();
    }
  }

  lemma InitialState()
    ensures Run([]) == INITIAL && Legal([], REACH + 1)
    ensures INITIAL.cache == Take([], RECENT_MINED_BLOCKS_CACHE_SIZE)
    ensures SpreadSlots(0) == [] && SpreadHeights(0) == []
  {
  }

  lemma {:induction false} LegalMonotone(es: seq<Event>, r: nat, r': nat)
    requires Legal(es, r) && r <= r'
    ensures Legal(es, r')
  {
    if |es| > 0 {
      LegalMonotone(es[..|es| - 1], r, r');
    }
  }

  lemma SlotSentTwice(k: nat)
    requires k == 102
    ensures Legal(SpreadRun(k), REACH + 1) && !SentOnce(Run(SpreadRun(k)).sent)
  {
    hide Run, Legal, SpreadRun;
    SpreadState(k);
    assert SpreadSlots(k)[0] == SpreadSlots(k)[101];
  }

  /** Over all interleavings, no slot is sent twice exactly up to a reach of 49. */
  lemma SentOnceExactlyUpTo49(reach: nat)
    ensures (forall es :: Legal(es, reach) ==> SentOnce(Run(es).sent)) <==> reach <= REACH
  {
    hide Run, Legal, SpreadRun, SentOnce;
    if reach <= REACH {
      forall es | Legal(es, reach) ensures SentOnce(Run(es).sent) {
        LegalMonotone(es, reach, REACH);
        NoSlotIsSentTwice(es);
      }
    } else {
      SlotSentTwice(102);
      LegalMonotone(SpreadRun(102), REACH + 1, reach);
    }
  }
}
