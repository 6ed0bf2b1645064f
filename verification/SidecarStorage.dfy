/** Writing and reading block bodies whose blob sidecars live in a blob store
(src/node/storage.rs). */
module SidecarStorage {
  import opened Chain

  type Digest = int

  /** `blob` marks an EIP-4844 transaction. */
  datatype Tx = Tx(hash: Digest, blob: bool)

  /** `other` stands for ommers and withdrawals. */
  datatype EthBody = EthBody(transactions: seq<Tx>, other: int)

  datatype Sidecar = Sidecar(
    inner: int, blockNumber: nat, blockHash: Digest, txIndex: nat, txHash: Digest, version: nat)

  datatype Body = Body(inner: EthBody, sidecars: Option<seq<Sidecar>>)

  datatype Variant = Eip4844(inner: int) | Eip7594(cells: int)

  type BlobStore = map<Digest, Variant>

  // ----- writing -----

  /** The sidecars of a batch of bodies, in batch order. */
  function AllSidecars(bodies: seq<(nat, Option<Body>)>): seq<Sidecar> {
    if |bodies| == 0 then []
    else
      var last := bodies[|bodies| - 1].1;
      AllSidecars(bodies[..|bodies| - 1]) +
      (if last.Some? && last.value.sidecars.Some? then last.value.sidecars.value else [])
  }

  function InsertAll(store: BlobStore, ss: seq<Sidecar>): BlobStore {
    if |ss| == 0 then store
    else
      var last := ss[|ss| - 1];
      InsertAll(store, ss[..|ss| - 1])[last.txHash := Eip4844(last.inner)]
  }

  function WriteEth(eth: map<nat, EthBody>, bodies: seq<(nat, Option<Body>)>): map<nat, EthBody> {
    if |bodies| == 0 then eth
    else
      var (number, body) := bodies[|bodies| - 1];
      var before := WriteEth(eth, bodies[..|bodies| - 1]);
      if body.Some? then before[number := body.value.inner] else before
  }

  /** `blobs` is absent until a blob store is registered. */
  class BscStorage {
    var eth: map<nat, EthBody>
    var blobs: Option<BlobStore>

    /** `ethFails` is the position at which the database refuses a body, if it does, and
        `insertFails` the blob store's answer to the insertion. */
    method WriteBlockBodies(bodies: seq<(nat, Option<Body>)>, ethFails: Option<nat>, insertFails: bool)
      returns (ok: bool)
      requires ethFails.Some? ==> ethFails.value < |bodies|
      modifies this
      ensures eth == WriteEth(old(eth), if ethFails.Some? then bodies[..ethFails.value] else bodies)
      ensures ok <==> ethFails.None? && (blobs.None? || AllSidecars(bodies) == [] || !insertFails)
      ensures old(blobs).None? ==> blobs.None?
      ensures old(blobs).Some? ==>
                blobs == Some(if ok then InsertAll(old(blobs).value, AllSidecars(bodies)) else old(blobs).value)
    {
      for i := 0 to |bodies|
        invariant eth == WriteEth(old(eth), bodies[..i])
        invariant blobs == old(blobs) && (ethFails.Some? ==> i <= ethFails.value)
      {
        assert bodies[..i + 1][..i] == bodies[..i];
        if ethFails == Some(i) {
          return false;
        }
        if bodies[i].1.Some? {
          eth := eth[bodies[i].0 := bodies[i].1.value.inner];
        }
      }
      assert bodies[..|bodies|] == bodies;
      if blobs.None? {
        return true;
      }
      var toInsert: seq<Sidecar> := [];
      for i := 0 to |bodies|
        invariant toInsert == AllSidecars(bodies[..i])
      {
        assert bodies[..i + 1][..i] == bodies[..i];
        var body := bodies[i].1;
        if body.Some? && body.value.sidecars.Some? {
          toInsert := toInsert + body.value.sidecars.value;
        }
      }
      if toInsert == [] {
        return true;
      }
      if insertFails {
        return false;
      }
      var store := blobs.value;
      for i := 0 to |toInsert|
        invariant store == InsertAll(blobs.value, toInsert[..i])
        invariant blobs == old(blobs) && eth == WriteEth(old(eth), bodies)
      {
        assert toInsert[..i + 1][..i] == toInsert[..i];
        store := store[toInsert[i].txHash := Eip4844(toInsert[i].inner)];
      }
      assert toInsert[..|toInsert|] == toInsert;
      blobs := Some(store);
      return true;
    }
  }

  // ----- reading -----

  /** Hash and position of the blob transactions of a block. */
  function BlobTxs(txs: seq<Tx>): seq<(Digest, nat)> {
    if |txs| == 0 then []
    else
      var last := txs[|txs| - 1];
      BlobTxs(txs[..|txs| - 1]) + (if last.blob then [(last.hash, |txs| - 1)] else [])
  }

  /** Position of a hash; the last entry wins, as when collecting into a map. */
  function IndexOf(blobTxs: seq<(Digest, nat)>, hash: Digest): Option<nat> {
    if |blobTxs| == 0 then None
    else
      var last := blobTxs[|blobTxs| - 1];
      if last.0 == hash then Some(last.1) else IndexOf(blobTxs[..|blobTxs| - 1], hash)
  }

  /** Number and hash of the block whose body is read. */
  datatype BlockId = BlockId(number: nat, hash: Digest)

  function ToSidecar(b: BlockId, blobTxs: seq<(Digest, nat)>, found: (Digest, Variant)): Option<Sidecar> {
    var index := IndexOf(blobTxs, found.0);
    if found.1.Eip4844? && index.Some? then
      Some(Sidecar(found.1.inner, b.number, b.hash, index.value, found.0, 0))
    else None
  }

  function Collect(b: BlockId, blobTxs: seq<(Digest, nat)>, answer: seq<(Digest, Variant)>): seq<Sidecar> {
    if |answer| == 0 then []
    else
      var last := ToSidecar(b, blobTxs, answer[|answer| - 1]);
      Collect(b, blobTxs, answer[..|answer| - 1]) + (if last.Some? then [last.value] else [])
  }

  /** Sorting by transaction index. */
  function Insert(s: Sidecar, sorted: seq<Sidecar>): seq<Sidecar> {
    if |sorted| == 0 || s.txIndex <= sorted[0].txIndex then [s] + sorted
    else [sorted[0]] + Insert(s, sorted[1..])
  }

  function SortByIndex(ss: seq<Sidecar>): seq<Sidecar> {
    if |ss| == 0 then [] else Insert(ss[0], SortByIndex(ss[1..]))
  }

  method SortInPlace(a: array<Sidecar>)
    modifies a
    ensures a[..] == SortByIndex(old(a[..]))
  {
    ghost var was := a[..];
    var i := a.Length;
    while i > 0
      invariant 0 <= i <= a.Length
      invariant a[..i] == was[..i] && a[i..] == SortByIndex(was[i..])
    {
      i := i - 1;
      assert was[i..] == [was[i]] + was[i + 1..];
      Sink(a, i);
      assert a[..i] == was[..i];
    }
    assert a[0..] == a[..] && was[0..] == was;
  }

  /** Moves the element at `i` into place among the sorted ones after it. */
  method Sink(a: array<Sidecar>, i: nat)
    requires i < a.Length
    modifies a
    ensures a[..i] == old(a[..i]) && a[i..] == Insert(old(a[i]), old(a[i + 1..]))
  {
    hide Insert;
    ghost var was := a[..];
    var j := i;
    while j + 1 < a.Length && a[j + 1].txIndex < a[j].txIndex
      invariant i <= j < a.Length && a[j] == was[i]
      invariant forall k :: 0 <= k < i || j < k < a.Length ==> a[k] == was[k]
      invariant forall k :: i <= k < j ==> a[k] == was[k + 1] && was[k + 1].txIndex < was[i].txIndex
    {
      a[j], a[j + 1] := a[j + 1], a[j];
      j := j + 1;
    }
    SunkTo(was, a[..], i, j);
  }

  lemma SunkTo(was: seq<Sidecar>, now: seq<Sidecar>, i: nat, j: nat)
    requires |now| == |was| && i <= j < |was| && now[j] == was[i]
    requires forall k :: 0 <= k < i || j < k < |was| ==> now[k] == was[k]
    requires forall k :: i <= k < j ==> now[k] == was[k + 1] && was[k + 1].txIndex < was[i].txIndex
    requires j + 1 < |was| ==> was[i].txIndex <= was[j + 1].txIndex
    ensures now[..i] == was[..i] && now[i..] == Insert(was[i], was[i + 1..])
  {
    hide Insert;
    var rest := was[i + 1..];
    forall m | 0 <= m < j - i ensures rest[m].txIndex < was[i].txIndex && now[i..][m] == rest[m] {
      assert now[m + i] == was[m + i + 1];
    }
    assert j + 1 < |was| ==> rest[j - i] == was[j + 1];
    InsertAt(was[i], rest, j - i);
    assert now[i..] == rest[..j - i] + [was[i]] + rest[j - i..];
  }

  lemma {:induction false} InsertAt(x: Sidecar, sorted: seq<Sidecar>, m: nat)
    requires m <= |sorted| && forall k :: 0 <= k < m ==> sorted[k].txIndex < x.txIndex
    requires m < |sorted| ==> x.txIndex <= sorted[m].txIndex
    ensures Insert(x, sorted) == sorted[..m] + [x] + sorted[m..]
  {
    if m > 0 {
      InsertAt(x, sorted[1..], m - 1);
    }
  }

  /** `answer` is what the blob store returns for the requested hashes, in its own order;
      it is absent when the query fails. */
  function ReadSidecars(b: BlockId, blobTxs: seq<(Digest, nat)>, answer: Option<seq<(Digest, Variant)>>)
    : Option<seq<Sidecar>>
  {
    if answer.None? || |answer.value| == 0 then None
    else
      var sidecars := SortByIndex(Collect(b, blobTxs, answer.value));
      if |sidecars| == 0 then None else Some(sidecars)
  }

  method ReadSidecarsFromBlobStore(b: BlockId, blobTxs: seq<(Digest, nat)>, answer: Option<seq<(Digest, Variant)>>)
    returns (sidecars: Option<seq<Sidecar>>)
    ensures sidecars == ReadSidecars(b, blobTxs, answer)
  {
    if answer.None? || answer.value == [] {
      return None;
    }
    var found := Collect(b, blobTxs, answer.value);
    var a := new Sidecar[|found|](i requires 0 <= i < |found| => found[i]);
    assert a[..] == found;
    SortInPlace(a);
    return if a.Length == 0 then None else Some(a[..]);
  }

  function ReadBody(b: BlockId, inner: EthBody, blobStore: bool, answer: Option<seq<(Digest, Variant)>>): Body {
    var blobTxs := BlobTxs(inner.transactions);
    Body(inner, if |blobTxs| == 0 || !blobStore then None else ReadSidecars(b, blobTxs, answer))
  }

  // ----- the sorted answer -----

  ghost predicate StrictlyByIndex(ss: seq<Sidecar>) {
    forall i, j :: 0 <= i < j < |ss| ==> ss[i].txIndex < ss[j].txIndex
  }

  ghost predicate DistinctIndexes(ss: seq<Sidecar>) {
    forall i, j :: 0 <= i < j < |ss| ==> ss[i].txIndex != ss[j].txIndex
  }

  lemma {:induction false} InsertMembers(s: Sidecar, sorted: seq<Sidecar>)
    ensures |Insert(s, sorted)| == |sorted| + 1
    ensures forall x :: x in Insert(s, sorted) <==> x == s || x in sorted
  {
    if !(|sorted| == 0 || s.txIndex <= sorted[0].txIndex) {
      InsertMembers(s, sorted[1..]);
      assert sorted == [sorted[0]] + sorted[1..];
    }
  }

  lemma {:induction false} InsertSorted(s: Sidecar, sorted: seq<Sidecar>)
    requires StrictlyByIndex(sorted) && forall i :: 0 <= i < |sorted| ==> sorted[i].txIndex != s.txIndex
    ensures StrictlyByIndex(Insert(s, sorted))
  {
    if !(|sorted| == 0 || s.txIndex <= sorted[0].txIndex) {
      InsertSorted(s, sorted[1..]);
      InsertMembers(s, sorted[1..]);
      var r := Insert(s, sorted[1..]);
      forall i | 0 <= i < |r| ensures sorted[0].txIndex < r[i].txIndex {
        assert r[i] in r;
      }
    }
  }

  /** With different indexes there is one sorted order, so the sort need not be stable. */
  lemma {:induction false} SortSpec(ss: seq<Sidecar>)
    requires DistinctIndexes(ss)
    ensures StrictlyByIndex(SortByIndex(ss))
    ensures forall x :: x in SortByIndex(ss) <==> x in ss
  {
    if |ss| > 0 {
      SortSpec(ss[1..]);
      var rest := SortByIndex(ss[1..]);
      forall i | 0 <= i < |rest| ensures rest[i].txIndex != ss[0].txIndex {
        assert rest[i] in rest;
      }
      InsertSorted(ss[0], rest);
      InsertMembers(ss[0], rest);
      assert ss == [ss[0]] + ss[1..];
    }
  }

  lemma {:induction false} StrictOrderIsUnique(a: seq<Sidecar>, b: seq<Sidecar>)
    requires StrictlyByIndex(a) && StrictlyByIndex(b)
    requires forall x :: x in a <==> x in b
    ensures a == b
  {
    assert |a| > 0 ==> a[0] in b;
    assert |b| > 0 ==> b[0] in a;
    if |a| > 0 {
      var i :| 0 <= i < |b| && b[i] == a[0];
      var j :| 0 <= j < |a| && a[j] == b[0];
      assert a[0] == b[0];
      forall x ensures x in a[1..] <==> x in b[1..] {
        if x in a[1..] {
          var k :| 0 < k < |a| && a[k] == x;
          assert x in b && x.txIndex != b[0].txIndex;
        }
        if x in b[1..] {
          var k :| 0 < k < |b| && b[k] == x;
          assert x in a && x.txIndex != a[0].txIndex;
        }
      }
      StrictOrderIsUnique(a[1..], b[1..]);
    }
  }

  // ----- what is read -----

  ghost predicate DistinctHashes(txs: seq<Tx>) {
    forall i, j :: 0 <= i < j < |txs| ==> txs[i].hash != txs[j].hash
  }

  lemma {:induction false} BlobTxsMembers(txs: seq<Tx>, hash: Digest, index: nat)
    ensures (hash, index) in BlobTxs(txs) <==> index < |txs| && txs[index] == Tx(hash, true)
  {
    if |txs| > 0 {
      BlobTxsMembers(txs[..|txs| - 1], hash, index);
    }
  }

  lemma {:induction false} IndexOfMembers(blobTxs: seq<(Digest, nat)>, hash: Digest)
    ensures IndexOf(blobTxs, hash).Some? ==> (hash, IndexOf(blobTxs, hash).value) in blobTxs
    ensures IndexOf(blobTxs, hash).None? ==> forall i: nat :: (hash, i) !in blobTxs
  {
    if |blobTxs| > 0 {
      var init := blobTxs[..|blobTxs| - 1];
      IndexOfMembers(init, hash);
      assert blobTxs == init + [blobTxs[|blobTxs| - 1]];
    }
  }

  /** The index found for a hash is the position of its blob transaction. */
  lemma IndexOfIsPosition(txs: seq<Tx>, hash: Digest, index: nat)
    requires DistinctHashes(txs)
    ensures IndexOf(BlobTxs(txs), hash) == Some(index) <==> index < |txs| && txs[index] == Tx(hash, true)
  {
    hide BlobTxs, IndexOf;
    var found := IndexOf(BlobTxs(txs), hash);
    IndexOfMembers(BlobTxs(txs), hash);
    BlobTxsMembers(txs, hash, index);
    if found.Some? {
      BlobTxsMembers(txs, hash, found.value);
    }
  }

  lemma {:induction false} CollectMembers(
    b: BlockId, blobTxs: seq<(Digest, nat)>, answer: seq<(Digest, Variant)>, x: Sidecar)
    ensures x in Collect(b, blobTxs, answer) <==>
            exists k :: 0 <= k < |answer| && ToSidecar(b, blobTxs, answer[k]) == Some(x)
  {
    hide ToSidecar;
    if |answer| > 0 {
      var n := |answer| - 1;
      CollectMembers(b, blobTxs, answer[..n], x);
      assert forall k :: 0 <= k < n ==> answer[..n][k] == answer[k];
    }
  }

  ghost predicate DistinctKeys(answer: seq<(Digest, Variant)>) {
    forall i, j :: 0 <= i < j < |answer| ==> answer[i].0 != answer[j].0
  }

  lemma {:induction false} CollectDistinct(b: BlockId, txs: seq<Tx>, answer: seq<(Digest, Variant)>)
    requires DistinctHashes(txs) && DistinctKeys(answer)
    ensures DistinctIndexes(Collect(b, BlobTxs(txs), answer))
  {
    hide BlobTxs, IndexOf, DistinctHashes;
    if |answer| > 0 {
      var n := |answer| - 1;
      var found := Collect(b, BlobTxs(txs), answer[..n]);
      CollectDistinct(b, txs, answer[..n]);
      var last := ToSidecar(b, BlobTxs(txs), answer[n]);
      if last.Some? {
        IndexOfIsPosition(txs, answer[n].0, last.value.txIndex);
        forall i | 0 <= i < |found| ensures found[i].txIndex != last.value.txIndex {
          CollectMembers(b, BlobTxs(txs), answer[..n], found[i]);
          IndexOfIsPosition(txs, found[i].txHash, found[i].txIndex);
        }
      }
    }
  }

  ghost predicate Returned(answer: seq<(Digest, Variant)>, hash: Digest, inner: int) {
    exists k :: 0 <= k < |answer| && answer[k] == (hash, Eip4844(inner))
  }

  function Listed(sidecars: Option<seq<Sidecar>>): seq<Sidecar> {
    if sidecars.Some? then sidecars.value else []
  }

  /** `s` is the sidecar of a blob transaction of the block, with the block's data. */
  predicate Describes(b: BlockId, txs: seq<Tx>, s: Sidecar) {
    && s.txIndex < |txs| && txs[s.txIndex] == Tx(s.txHash, true)
    && s.blockNumber == b.number && s.blockHash == b.hash && s.version == 0
  }

  /** Read are exactly the sidecars of the returned EIP-4844 entries, by position in the
      block; an empty list is never read. */
  lemma ReadSpec(b: BlockId, txs: seq<Tx>, answer: seq<(Digest, Variant)>)
    requires DistinctHashes(txs) && DistinctKeys(answer)
    ensures var r := ReadSidecars(b, BlobTxs(txs), Some(answer));
            && r != Some([])
            && StrictlyByIndex(Listed(r))
            && forall s :: s in Listed(r) <==> Returned(answer, s.txHash, s.inner) && Describes(b, txs, s)
  {
    hide BlobTxs, IndexOf, DistinctHashes, Collect, SortByIndex, DistinctKeys, DistinctIndexes;
    var found := Collect(b, BlobTxs(txs), answer);
    CollectDistinct(b, txs, answer);
    SortSpec(found);
    var r := ReadSidecars(b, BlobTxs(txs), Some(answer));
    forall s ensures s in Listed(r) <==> Returned(answer, s.txHash, s.inner) && Describes(b, txs, s) {
      CollectMembers(b, BlobTxs(txs), answer, s);
      IndexOfIsPosition(txs, s.txHash, s.txIndex);
      assert s in SortByIndex(found) <==> s in found;
    }
  }

  /** The order in which the store answers does not matter. */
  lemma AnswerOrderIsIrrelevant(b: BlockId, txs: seq<Tx>, a1: seq<(Digest, Variant)>, a2: seq<(Digest, Variant)>)
    requires DistinctHashes(txs) && DistinctKeys(a1) && DistinctKeys(a2)
    requires forall x :: x in a1 <==> x in a2
    ensures ReadSidecars(b, BlobTxs(txs), Some(a1)) == ReadSidecars(b, BlobTxs(txs), Some(a2))
  {
    hide BlobTxs, DistinctHashes, ReadSidecars, DistinctKeys, StrictlyByIndex, Describes;
    ReadSpec(b, txs, a1);
    ReadSpec(b, txs, a2);
    forall hash, inner ensures Returned(a1, hash, inner) <==> Returned(a2, hash, inner) {
      assert Returned(a1, hash, inner) <==> (hash, Eip4844(inner)) in a1;
      assert Returned(a2, hash, inner) <==> (hash, Eip4844(inner)) in a2;
    }
    StrictOrderIsUnique(
      Listed(ReadSidecars(b, BlobTxs(txs), Some(a1))), Listed(ReadSidecars(b, BlobTxs(txs), Some(a2))));
  }

  // ----- writing, then reading -----

  /** A transaction hash determines its blobs. */
  ghost predicate SameHashSameBlobs(ss: seq<Sidecar>) {
    forall i, j :: 0 <= i < |ss| && 0 <= j < |ss| && ss[i].txHash == ss[j].txHash ==> ss[i].inner == ss[j].inner
  }

  lemma {:induction false} InsertedStays(store: BlobStore, ss: seq<Sidecar>, s: Sidecar)
    requires SameHashSameBlobs(ss) && s in ss
    ensures s.txHash in InsertAll(store, ss) && InsertAll(store, ss)[s.txHash] == Eip4844(s.inner)
  {
    var n := |ss| - 1;
    var i :| 0 <= i < |ss| && ss[i] == s;
    if ss[n].txHash != s.txHash {
      assert ss[..n][i] == s;
      InsertedStays(store, ss[..n], s);
    }
  }

  lemma {:induction false} BodySidecarsAreWritten(bodies: seq<(nat, Option<Body>)>, i: nat, s: Sidecar)
    requires i < |bodies| && bodies[i].1.Some? && bodies[i].1.value.sidecars.Some?
    requires s in bodies[i].1.value.sidecars.value
    ensures s in AllSidecars(bodies)
  {
    if i < |bodies| - 1 {
      BodySidecarsAreWritten(bodies[..|bodies| - 1], i, s);
    }
  }

  /** The store answers a query for the blob transactions: each hash it holds, once. */
  ghost predicate Answers(answer: seq<(Digest, Variant)>, store: BlobStore, txs: seq<Tx>) {
    && DistinctKeys(answer)
    && (forall k :: 0 <= k < |answer| ==> answer[k].0 in store && answer[k].1 == store[answer[k].0])
    && (forall i :: 0 <= i < |txs| && txs[i].blob && txs[i].hash in store ==>
                      (txs[i].hash, store[txs[i].hash]) in answer)
  }

  /** A body whose sidecars, if present, are a nonempty list in block order that carries its
      block's and its transactions' data. */
  ghost predicate Canonical(b: BlockId, body: Body) {
    && body.sidecars != Some([])
    && StrictlyByIndex(Listed(body.sidecars))
    && forall s :: s in Listed(body.sidecars) ==> Describes(b, body.inner.transactions, s)
  }

  ghost predicate Holds(store: BlobStore, hash: Digest, inner: int) {
    hash in store && store[hash] == Eip4844(inner)
  }

  ghost predicate Own(body: Body, hash: Digest, inner: int) {
    exists s :: s in Listed(body.sidecars) && s.txHash == hash && s.inner == inner
  }

  /** For the block's blob transactions the store holds exactly the body's sidecars. */
  ghost predicate HoldsExactly(store: BlobStore, body: Body) {
    forall i, inner :: 0 <= i < |body.inner.transactions| && body.inner.transactions[i].blob ==>
      (Holds(store, body.inner.transactions[i].hash, inner) <==> Own(body, body.inner.transactions[i].hash, inner))
  }

  lemma ReadBodySidecars(b: BlockId, inner: EthBody, answer: seq<(Digest, Variant)>)
    requires DistinctHashes(inner.transactions) && DistinctKeys(answer)
    ensures ReadBody(b, inner, true, Some(answer)) ==
            Body(inner, ReadSidecars(b, BlobTxs(inner.transactions), Some(answer)))
  {
    hide BlobTxs, DistinctHashes, ReadSidecars, DistinctKeys, StrictlyByIndex, Returned;
    var r := ReadSidecars(b, BlobTxs(inner.transactions), Some(answer));
    ReadSpec(b, inner.transactions, answer);
    if r.Some? {
      var s := r.value[0];
      assert s in Listed(r);
      BlobTxsMembers(inner.transactions, s.txHash, s.txIndex);
    }
  }

  lemma ReturnedIsHeld(store: BlobStore, txs: seq<Tx>, answer: seq<(Digest, Variant)>, i: nat, inner: int)
    requires Answers(answer, store, txs) && i < |txs| && txs[i].blob
    ensures Returned(answer, txs[i].hash, inner) <==> Holds(store, txs[i].hash, inner)
  {
  }

  /** Whatever a store holds and in whatever order it answers, a body is read back as it was
      exactly when it is canonical and the store holds exactly its sidecars. */
  lemma ReadBackExactly(store: BlobStore, body: Body, b: BlockId, answer: seq<(Digest, Variant)>)
    requires DistinctHashes(body.inner.transactions) && Answers(answer, store, body.inner.transactions)
    ensures ReadBody(b, body.inner, true, Some(answer)) == body <==> Canonical(b, body) && HoldsExactly(store, body)
  {
    hide BlobTxs, ReadBody, ReadSidecars, DistinctHashes, DistinctKeys, StrictlyByIndex, Returned, Holds, Own;
    var txs := body.inner.transactions;
    var r := ReadSidecars(b, BlobTxs(txs), Some(answer));
    ReadBodySidecars(b, body.inner, answer);
    ReadSpec(b, txs, answer);
    if r == body.sidecars {
      forall i, inner | 0 <= i < |txs| && txs[i].blob
        ensures Holds(store, txs[i].hash, inner) <==> Own(body, txs[i].hash, inner)
      {
        ReadIsHeld(store, body, b, answer, i, inner);
      }
    }
    if Canonical(b, body) && HoldsExactly(store, body) {
      forall s ensures s in Listed(r) <==> s in Listed(body.sidecars) {
        HeldIsRead(store, body, b, answer, s);
      }
      StrictOrderIsUnique(Listed(r), Listed(body.sidecars));
    }
  }

  lemma ReadIsHeld(store: BlobStore, body: Body, b: BlockId, answer: seq<(Digest, Variant)>, i: nat, inner: int)
    requires Answers(answer, store, body.inner.transactions)
    requires i < |body.inner.transactions| && body.inner.transactions[i].blob
    requires forall s :: s in Listed(body.sidecars) <==>
                         Returned(answer, s.txHash, s.inner) && Describes(b, body.inner.transactions, s)
    ensures var hash := body.inner.transactions[i].hash;
            Holds(store, hash, inner) <==> Own(body, hash, inner)
  {
    hide Returned, Answers, Holds;
    var hash := body.inner.transactions[i].hash;
    ReturnedIsHeld(store, body.inner.transactions, answer, i, inner);
    if Returned(answer, hash, inner) {
      var s := Sidecar(inner, b.number, b.hash, i, hash, 0);
      assert s in Listed(body.sidecars);
      assert Own(body, hash, inner);
    }
  }

  lemma HeldIsRead(store: BlobStore, body: Body, b: BlockId, answer: seq<(Digest, Variant)>, s: Sidecar)
    requires DistinctHashes(body.inner.transactions) && Answers(answer, store, body.inner.transactions)
    requires Canonical(b, body) && HoldsExactly(store, body)
    ensures s in Listed(body.sidecars) <==>
            Returned(answer, s.txHash, s.inner) && Describes(b, body.inner.transactions, s)
  {
    hide Returned, Answers, Holds, StrictlyByIndex;
    if Describes(b, body.inner.transactions, s) {
      ReturnedIsHeld(store, body.inner.transactions, answer, s.txIndex, s.inner);
      if Returned(answer, s.txHash, s.inner) {
        var own :| own in Listed(body.sidecars) && own.txHash == s.txHash && own.inner == s.inner;
        assert own == s;
      }
    }
  }

  // ----- after a batch was written -----

  ghost predicate OwnSidecar(body: Body, hash: Digest) {
    exists s :: s in Listed(body.sidecars) && s.txHash == hash
  }

  /** EIP-4844 entries for the block's blob transactions belong to the body's own sidecars. */
  ghost predicate OnlyOwn(store: BlobStore, body: Body) {
    forall i :: 0 <= i < |body.inner.transactions| && body.inner.transactions[i].blob &&
                body.inner.transactions[i].hash in store && store[body.inner.transactions[i].hash].Eip4844? ==>
      OwnSidecar(body, body.inner.transactions[i].hash)
  }

  lemma OwnIsHeld(store: BlobStore, bodies: seq<(nat, Option<Body>)>, i: nat, s: Sidecar)
    requires i < |bodies| && bodies[i].1.Some? && SameHashSameBlobs(AllSidecars(bodies))
    requires s in Listed(bodies[i].1.value.sidecars)
    ensures Holds(InsertAll(store, AllSidecars(bodies)), s.txHash, s.inner)
  {
    BodySidecarsAreWritten(bodies, i, s);
    InsertedStays(store, AllSidecars(bodies), s);
  }

  lemma WrittenIsHeld(store: BlobStore, bodies: seq<(nat, Option<Body>)>, i: nat)
    requires i < |bodies| && bodies[i].1.Some? && SameHashSameBlobs(AllSidecars(bodies))
    ensures var after := InsertAll(store, AllSidecars(bodies));
            HoldsExactly(after, bodies[i].1.value) <==> OnlyOwn(after, bodies[i].1.value)
  {
    hide SameHashSameBlobs, InsertAll, AllSidecars;
    var body, after := bodies[i].1.value, InsertAll(store, AllSidecars(bodies));
    var txs := body.inner.transactions;
    if OnlyOwn(after, body) {
      forall k, inner | 0 <= k < |txs| && txs[k].blob
        ensures Holds(after, txs[k].hash, inner) <==> Own(body, txs[k].hash, inner)
      {
        if Holds(after, txs[k].hash, inner) {
          var s :| s in Listed(body.sidecars) && s.txHash == txs[k].hash;
          OwnIsHeld(store, bodies, i, s);
        }
        if Own(body, txs[k].hash, inner) {
          var s :| s in Listed(body.sidecars) && s.txHash == txs[k].hash && s.inner == inner;
          OwnIsHeld(store, bodies, i, s);
        }
      }
    }
    if HoldsExactly(after, body) {
      forall k | 0 <= k < |txs| && txs[k].blob && txs[k].hash in after && after[txs[k].hash].Eip4844?
        ensures OwnSidecar(body, txs[k].hash)
      {
        assert Holds(after, txs[k].hash, after[txs[k].hash].inner);
        assert Own(body, txs[k].hash, after[txs[k].hash].inner);
      }
    }
  }

  /** No later body of the batch is written under the same number. */
  predicate LastForNumber(bodies: seq<(nat, Option<Body>)>, i: nat)
    requires i < |bodies|
  {
    forall j :: i < j < |bodies| && bodies[j].1.Some? ==> bodies[j].0 != bodies[i].0
  }

  lemma {:induction false} EthBodyIsWritten(eth: map<nat, EthBody>, bodies: seq<(nat, Option<Body>)>, i: nat)
    requires i < |bodies| && bodies[i].1.Some? && LastForNumber(bodies, i)
    ensures bodies[i].0 in WriteEth(eth, bodies) && WriteEth(eth, bodies)[bodies[i].0] == bodies[i].1.value.inner
  {
    if i < |bodies| - 1 {
      EthBodyIsWritten(eth, bodies[..|bodies| - 1], i);
    }
  }

  /** A body written as part of a batch is read back as it was exactly when it is canonical and
      the store has no EIP-4844 entry of another origin for its blob transactions. */
  lemma RoundTripExactly(
    eth: map<nat, EthBody>, store: BlobStore, bodies: seq<(nat, Option<Body>)>, i: nat, hash: Digest,
    answer: seq<(Digest, Variant)>)
    requires i < |bodies| && bodies[i].1.Some? && LastForNumber(bodies, i)
    requires DistinctHashes(bodies[i].1.value.inner.transactions) && SameHashSameBlobs(AllSidecars(bodies))
    requires Answers(answer, InsertAll(store, AllSidecars(bodies)), bodies[i].1.value.inner.transactions)
    ensures bodies[i].0 in WriteEth(eth, bodies)
    ensures var (number, body) := (bodies[i].0, bodies[i].1.value);
            ReadBody(BlockId(number, hash), WriteEth(eth, bodies)[number], true, Some(answer)) == body <==>
            Canonical(BlockId(number, hash), body) && OnlyOwn(InsertAll(store, AllSidecars(bodies)), body)
  {
    hide ReadBody, Canonical, HoldsExactly, OnlyOwn, Answers, DistinctHashes, SameHashSameBlobs;
    hide InsertAll, AllSidecars, WriteEth;
    EthBodyIsWritten(eth, bodies, i);
    ReadBackExactly(InsertAll(store, AllSidecars(bodies)), bodies[i].1.value, BlockId(bodies[i].0, hash), answer);
    WrittenIsHeld(store, bodies, i);
  }

  /** A canonical body with a sidecar for each blob transaction is read back whatever the
      store held before. */
  lemma CompleteBodyRoundTrip(
    eth: map<nat, EthBody>, store: BlobStore, bodies: seq<(nat, Option<Body>)>, i: nat, hash: Digest,
    answer: seq<(Digest, Variant)>)
    requires i < |bodies| && bodies[i].1.Some? && LastForNumber(bodies, i)
    requires DistinctHashes(bodies[i].1.value.inner.transactions) && SameHashSameBlobs(AllSidecars(bodies))
    requires Answers(answer, InsertAll(store, AllSidecars(bodies)), bodies[i].1.value.inner.transactions)
    requires Canonical(BlockId(bodies[i].0, hash), bodies[i].1.value)
    requires forall t :: t in bodies[i].1.value.inner.transactions && t.blob ==> OwnSidecar(bodies[i].1.value, t.hash)
    ensures bodies[i].0 in WriteEth(eth, bodies)
    ensures ReadBody(BlockId(bodies[i].0, hash), WriteEth(eth, bodies)[bodies[i].0], true, Some(answer)) ==
            bodies[i].1.value
  {
    hide ReadBody, Canonical, Answers, DistinctHashes, SameHashSameBlobs, InsertAll, AllSidecars, OwnSidecar, WriteEth;
    RoundTripExactly(eth, store, bodies, i, hash, answer);
  }

  /** A canonical body without sidecars is not read back when the store already holds data for
      its blob transaction. */
  lemma EarlierEntryIsRead(number: nat, hash: Digest, txHash: Digest, inner: int)
    ensures var body := Body(EthBody([Tx(txHash, true)], 0), None);
            var store: BlobStore := map[txHash := Eip4844(inner)];
            var answer := [(txHash, Eip4844(inner))];
            && Canonical(BlockId(number, hash), body)
            && Answers(answer, InsertAll(store, AllSidecars([(number, Some(body))])), body.inner.transactions)
            && ReadBody(BlockId(number, hash), body.inner, true, Some(answer)) ==
               Body(body.inner, Some([Sidecar(inner, number, hash, 0, txHash, 0)]))
  {
    var txs, answer := [Tx(txHash, true)], [(txHash, Eip4844(inner))];
    assert txs[..0] == [] && answer[..0] == [];
    assert BlobTxs(txs) == [(txHash, 0)];
    assert [(txHash, 0)][..0] == [];
    assert IndexOf(BlobTxs(txs), txHash) == Some(0);
    var s := Sidecar(inner, number, hash, 0, txHash, 0);
    assert Collect(BlockId(number, hash), BlobTxs(txs), answer) == [s];
    assert SortByIndex([s]) == [s];
  }

  // ----- what a write leaves alone -----

  /** A write leaves the entries of all other hashes alone. */
  lemma {:induction false} OtherEntriesStay(store: BlobStore, ss: seq<Sidecar>, hash: Digest)
    requires forall i :: 0 <= i < |ss| ==> ss[i].txHash != hash
    ensures hash in InsertAll(store, ss) <==> hash in store
    ensures hash in store ==> InsertAll(store, ss)[hash] == store[hash]
  {
    if |ss| > 0 {
      OtherEntriesStay(store, ss[..|ss| - 1], hash);
    }
  }

  /** Of several sidecars for one hash the last is kept. */
  lemma {:induction false} LastSidecarWins(store: BlobStore, ss: seq<Sidecar>, i: nat)
    requires i < |ss| && forall j :: i < j < |ss| ==> ss[j].txHash != ss[i].txHash
    ensures Holds(InsertAll(store, ss), ss[i].txHash, ss[i].inner)
  {
    if i < |ss| - 1 {
      LastSidecarWins(store, ss[..|ss| - 1], i);
    }
  }

  /** And the bodies of all other numbers. */
  lemma {:induction false} OtherBodiesStay(eth: map<nat, EthBody>, bodies: seq<(nat, Option<Body>)>, number: nat)
    requires forall i :: 0 <= i < |bodies| && bodies[i].1.Some? ==> bodies[i].0 != number
    ensures number in WriteEth(eth, bodies) <==> number in eth
    ensures number in eth ==> WriteEth(eth, bodies)[number] == eth[number]
  {
    if |bodies| > 0 {
      OtherBodiesStay(eth, bodies[..|bodies| - 1], number);
    }
  }

  // ----- batch after batch -----

  type Batch = seq<(nat, Option<Body>)>

  datatype Stored = Stored(eth: map<nat, EthBody>, blobs: BlobStore)

  function WriteBatches(s: Stored, batches: seq<Batch>): Stored {
    if |batches| == 0 then s
    else
      var before, last := WriteBatches(s, batches[..|batches| - 1]), batches[|batches| - 1];
      Stored(WriteEth(before.eth, last), InsertAll(before.blobs, AllSidecars(last)))
  }

  function Joined(batches: seq<Batch>): Batch {
    if |batches| == 0 then [] else Joined(batches[..|batches| - 1]) + batches[|batches| - 1]
  }

  lemma {:induction false} InsertAllConcat(store: BlobStore, a: seq<Sidecar>, b: seq<Sidecar>)
    ensures InsertAll(store, a + b) == InsertAll(InsertAll(store, a), b)
  {
    if |b| == 0 {
      assert a + b == a;
    } else {
      InsertAllConcat(store, a, b[..|b| - 1]);
      assert (a + b)[..|a + b| - 1] == a + b[..|b| - 1];
    }
  }

  lemma {:induction false} AllSidecarsConcat(a: Batch, b: Batch)
    ensures AllSidecars(a + b) == AllSidecars(a) + AllSidecars(b)
  {
    hide AllSidecars, Listed;
    if |b| == 0 {
      NothingWritten(Stored(map[], map[]));
      assert a + b == a;
    } else {
      AllSidecarsConcat(a, b[..|b| - 1]);
      var all := a + b;
      assert all[..|all| - 1] == a + b[..|b| - 1] && all[|all| - 1] == b[|b| - 1];
      AllSidecarsLast(all);
      AllSidecarsLast(b);
    }
  }

  lemma AllSidecarsLast(b: Batch)
    requires |b| > 0
    ensures var last := b[|b| - 1].1;
            AllSidecars(b) ==
            AllSidecars(b[..|b| - 1]) + (if last.Some? then Listed(last.value.sidecars) else [])
  {
  }

  lemma {:induction false} WriteEthConcat(eth: map<nat, EthBody>, a: Batch, b: Batch)
    ensures WriteEth(eth, a + b) == WriteEth(WriteEth(eth, a), b)
  {
    if |b| == 0 {
      assert a + b == a;
    } else {
      WriteEthConcat(eth, a, b[..|b| - 1]);
      assert (a + b)[..|a + b| - 1] == a + b[..|b| - 1];
    }
  }

  /** Batches written one after the other are one batch. */
  lemma {:induction false} BatchesAreOneBatch(s: Stored, batches: seq<Batch>)
    ensures WriteBatches(s, batches) ==
            Stored(WriteEth(s.eth, Joined(batches)), InsertAll(s.blobs, AllSidecars(Joined(batches))))
  {
    if |batches| > 0 {
      hide WriteEth, InsertAll, AllSidecars;
      var init, last := batches[..|batches| - 1], batches[|batches| - 1];
      BatchesAreOneBatch(s, init);
      AllSidecarsConcat(Joined(init), last);
      WriteEthConcat(s.eth, Joined(init), last);
      InsertAllConcat(s.blobs, AllSidecars(Joined(init)), AllSidecars(last));
    } else {
      NothingWritten(s);
    }
  }

  lemma NothingWritten(s: Stored)
    ensures WriteEth(s.eth, []) == s.eth && AllSidecars([]) == [] && InsertAll(s.blobs, []) == s.blobs
  {
  }

  /** A body written in any of a sequence of batches is read back after all of them exactly when
      it is canonical and the store has no EIP-4844 entry of another origin for its blob
      transactions, unless a later body took its number. */
  lemma BatchesRoundTripExactly(
    s: Stored, batches: seq<Batch>, i: nat, hash: Digest, answer: seq<(Digest, Variant)>)
    requires var all := Joined(batches);
             && i < |all| && all[i].1.Some? && LastForNumber(all, i)
             && DistinctHashes(all[i].1.value.inner.transactions) && SameHashSameBlobs(AllSidecars(all))
             && Answers(answer, WriteBatches(s, batches).blobs, all[i].1.value.inner.transactions)
    ensures Joined(batches)[i].0 in WriteBatches(s, batches).eth
    ensures var (number, body) := (Joined(batches)[i].0, Joined(batches)[i].1.value);
            var after := WriteBatches(s, batches);
            ReadBody(BlockId(number, hash), after.eth[number], true, Some(answer)) == body <==>
            Canonical(BlockId(number, hash), body) && OnlyOwn(after.blobs, body)
  {
    hide ReadBody, Canonical, OnlyOwn, Answers, DistinctHashes, SameHashSameBlobs, InsertAll, AllSidecars, WriteEth;
    hide WriteBatches, LastForNumber;
    BatchesAreOneBatch(s, batches);
    RoundTripExactly(s.eth, s.blobs, Joined(batches), i, hash, answer);
  }

  /** Without a store, or when its query fails, no sidecars are read. */
  lemma NoStoreNoSidecars(b: BlockId, inner: EthBody, answer: Option<seq<(Digest, Variant)>>)
    ensures ReadBody(b, inner, false, answer) == ReadBody(b, inner, true, None) == Body(inner, None)
  {
  }
}
