/** What goes on the wire, as trees: RLP defined by recursion over strings and lists, as Appendix B
of the Ethereum Yellow Paper does, and the trees of sidecars, bodies and blocks. */
module RlpTrees {
  import opened Chain
  import opened Rlp
  import opened SidecarCodec
  import opened BlockCodec

  /** `Raw` stands for an item that foreign code encoded. */
  datatype Tree = Leaf(bytes: Bytes) | Raw(item: Bytes) | Node(children: seq<Tree>)

  /** A tree too long for a 64-bit length has no encoding and gives no bytes here. */
  function Write(t: Tree): Bytes
    decreases t
  {
    match t
    case Leaf(b) => if |b| < U64_LIMIT then EncodeString(b) else []
    case Raw(x) => x
    case Node(ts) =>
      var payload := WriteAll(ts);
      if |payload| < U64_LIMIT then EncodeList(payload) else []
  }

  function WriteAll(ts: seq<Tree>): Bytes
    decreases ts
  {
    if |ts| == 0 then [] else Write(ts[0]) + WriteAll(ts[1..])
  }

  function Number(n: nat): Tree {
    Leaf(BigEndian(n))
  }

  // ----- the standard's own examples -----

  lemma StringExamples()
    ensures Write(Leaf([0x64, 0x6f, 0x67])) == [0x83, 0x64, 0x6f, 0x67]
    ensures Write(Leaf([])) == [0x80] && Write(Leaf([0x0f])) == [0x0f] && Write(Leaf([0x80])) == [0x81, 0x80]
  {
  }

  lemma NumberExamples()
    ensures Write(Number(0)) == [0x80] && Write(Number(15)) == [0x0f] && Write(Number(1024)) == [0x82, 0x04, 0x00]
  {
    BigEndianExamples();
    hide BigEndian;
  }

  lemma BigEndianExamples()
    ensures BigEndian(0) == [] && BigEndian(15) == [15] && BigEndian(1024) == [4, 0]
  {
    assert BigEndian(4) == [4];
  }

  lemma ListExamples()
    ensures Write(Node([])) == [0xc0]
    ensures Write(Node([Leaf([0x63]), Leaf([0x64])])) == [0xc2, 0x63, 0x64]
    ensures Write(Node([Node([]), Node([Node([])])])) == [0xc3, 0xc0, 0xc1, 0xc0]
  {
    EmptyList();
    WriteTwo(Leaf([0x63]), Leaf([0x64]));
    WriteOne(Node([]));
    WriteTwo(Node([]), Node([Node([])]));
  }

  lemma EmptyList()
    ensures Write(Node([])) == [0xc0]
  {
  }

  lemma WriteOne(a: Tree)
    ensures WriteAll([a]) == Write(a)
  {
    assert [a][1..] == [];
  }

  lemma WriteTwo(a: Tree, b: Tree)
    ensures WriteAll([a, b]) == Write(a) + Write(b)
  {
    assert [a, b][1..] == [b];
    WriteOne(b);
  }

  /** From 56 bytes on the length is written out. */
  lemma LongExamples(s: Bytes)
    requires |s| == 56
    ensures Write(Leaf(s)) == [0xb8, 56] + s
    ensures Write(Node([Raw(s)])) == [0xf8, 56] + s
  {
    assert BigEndian(56) == [56];
    WriteOne(Raw(s));
  }

  // ----- lists -----

  function Leaves(es: seq<Bytes>): seq<Tree> {
    seq(|es|, i requires 0 <= i < |es| => Leaf(es[i]))
  }

  function Raws(es: seq<Bytes>): seq<Tree> {
    seq(|es|, i requires 0 <= i < |es| => Raw(es[i]))
  }

  function TreesOf(shape: Shape, es: seq<Bytes>): seq<Tree> {
    if shape.Fixed? then Leaves(es) else Raws(es)
  }

  lemma {:induction false} ElementsAreTrees(shape: Shape, es: seq<Bytes>)
    requires ValidElements(shape, es)
    ensures EncodeElements(shape, es) == WriteAll(TreesOf(shape, es))
  {
    if |es| > 0 {
      ElementsAreTrees(shape, es[1..]);
      assert TreesOf(shape, es)[1..] == TreesOf(shape, es[1..]);
    }
  }

  lemma VecIsNode(shape: Shape, es: seq<Bytes>)
    requires ValidVec(shape, es)
    ensures EncodeVec(shape, es) == Write(Node(TreesOf(shape, es)))
  {
    hide EncodeList, EncodeElements, TreesOf;
    ElementsAreTrees(shape, es);
  }

  lemma {:induction false} WriteAllConcat(a: seq<Tree>, b: seq<Tree>)
    ensures WriteAll(a + b) == WriteAll(a) + WriteAll(b)
  {
    hide Write, WriteAll;
    if |a| == 0 {
      NoTrees();
      assert a + b == b;
    } else {
      WriteAllConcat(a[1..], b);
      assert (a + b)[0] == a[0] && (a + b)[1..] == a[1..] + b;
      WriteFirst(a);
      WriteFirst(a + b);
    }
  }

  lemma WriteFirst(ts: seq<Tree>)
    requires |ts| > 0
    ensures WriteAll(ts) == Write(ts[0]) + WriteAll(ts[1..])
  {
  }

  lemma NoTrees()
    ensures WriteAll([]) == []
  {
  }

  // ----- sidecars -----

  /** `[[blobs, commitments, proofs], block number, block hash, transaction index, transaction hash]`. */
  function SidecarTree(s: Sidecar): Tree {
    Node([Node([Node(Leaves(s.inner.blobs)), Node(Leaves(s.inner.commitments)), Node(Leaves(s.inner.proofs))]),
          Number(s.blockNumber), Leaf(s.blockHash), Number(s.txIndex), Leaf(s.txHash)])
  }

  lemma FieldsAreTrees(i: BlobSidecar)
    requires ValidFields(i)
    ensures EncodeFields(i) == WriteAll([Node(Leaves(i.blobs)), Node(Leaves(i.commitments)), Node(Leaves(i.proofs))])
  {
    hide EncodeVec, ValidVec, Write;
    VecIsNode(BLOB, i.blobs);
    VecIsNode(COMMITMENT, i.commitments);
    VecIsNode(PROOF, i.proofs);
    var a, b, c := Node(Leaves(i.blobs)), Node(Leaves(i.commitments)), Node(Leaves(i.proofs));
    assert [a, b, c][1..] == [b, c];
    WriteTwo(b, c);
  }

  lemma MetaIsTrees(n: nat, h: Bytes, i: nat, t: Bytes)
    requires ValidMeta(n, h, i, t)
    ensures EncodeMeta(n, h, i, t) == WriteAll([Number(n), Leaf(h), Number(i), Leaf(t)])
  {
    hide EncodeString, BigEndian;
    U64Length(n);
    U64Length(i);
    var ts := [Number(n), Leaf(h), Number(i), Leaf(t)];
    assert ts == [Number(n), Leaf(h)] + [Number(i), Leaf(t)];
    WriteAllConcat([Number(n), Leaf(h)], [Number(i), Leaf(t)]);
    WriteTwo(Number(n), Leaf(h));
    WriteTwo(Number(i), Leaf(t));
  }

  /** The encoding of a sidecar is that of its tree. */
  lemma SidecarIsTree(s: Sidecar)
    requires ValidSidecar(s)
    ensures EncodeSidecar(s) == Write(SidecarTree(s))
  {
    hide EncodeSidecar, EncodeFields, EncodeMeta, EncodeList, Leaves, ValidSidecar, WriteAll, Number;
    SidecarFraming(s);
    FieldsAreTrees(s.inner);
    MetaIsTrees(s.blockNumber, s.blockHash, s.txIndex, s.txHash);
    var inner := Node([Node(Leaves(s.inner.blobs)), Node(Leaves(s.inner.commitments)), Node(Leaves(s.inner.proofs))]);
    var meta := [Number(s.blockNumber), Leaf(s.blockHash), Number(s.txIndex), Leaf(s.txHash)];
    assert SidecarTree(s).children == [inner] + meta;
    WriteAllConcat([inner], meta);
    WriteOne(inner);
    SidecarBodySize(s);
  }

  lemma SidecarBodySize(s: Sidecar)
    requires ValidSidecar(s)
    ensures PayloadLength(s) < U64_LIMIT
  {
  }

  // ----- bodies and blocks -----

  function SidecarTrees(ss: seq<Sidecar>): seq<Tree> {
    seq(|ss|, i requires 0 <= i < |ss| => SidecarTree(ss[i]))
  }

  lemma {:induction false} SidecarsAreTrees(ss: seq<Sidecar>)
    requires ValidSidecars(ss)
    ensures EncodeSidecars(ss) == WriteAll(SidecarTrees(ss))
  {
    hide SidecarTree, EncodeSidecar, ValidSidecar, Write;
    if |ss| > 0 {
      SidecarsAreTrees(ss[1..]);
      SidecarIsTree(ss[0]);
      assert SidecarTrees(ss)[1..] == SidecarTrees(ss[1..]);
    }
  }

  /** Transactions and ommers, then the withdrawals if there are any or if sidecars follow, an
      empty list in their place when they are missing, then the sidecars if there are any. */
  function BodyTrees(b: Body): seq<Tree> {
    [Node(Raws(b.transactions)), Node(Raws(b.ommers))]
    + (if b.withdrawals.Some? then [Node(Raws(b.withdrawals.value))] else if b.sidecars.Some? then [Node([])] else [])
    + (if b.sidecars.Some? then [Node(SidecarTrees(b.sidecars.value))] else [])
  }

  lemma ListsAreTrees(c: Codec, b: Body)
    requires ValidBody(c, b)
    ensures EncodeLists(c, b) == WriteAll([Node(Raws(b.transactions)), Node(Raws(b.ommers))])
  {
    hide EncodeVec, ValidVec, Write, WriteAll, Raws;
    VecIsNode(Item(c.transaction), b.transactions);
    VecIsNode(Item(c.header), b.ommers);
    WriteTwo(Node(Raws(b.transactions)), Node(Raws(b.ommers)));
  }

  lemma SidecarVecIsNode(ss: seq<Sidecar>)
    requires ValidSidecarVec(ss)
    ensures EncodeSidecarVec(ss) == Write(Node(SidecarTrees(ss)))
  {
    hide EncodeList, EncodeSidecars, SidecarTrees, WriteAll;
    SidecarsAreTrees(ss);
  }

  lemma FieldsOfBody(c: Codec, b: Body)
    requires ValidBody(c, b)
    ensures ValidBody(c, Backfilled(b)) && FieldsOf(c, Backfilled(b)) == WriteAll(BodyTrees(b))
  {
    hide EncodeVec, EncodeSidecarVec, ValidVec, ValidSidecarVec, Write, WriteAll, SidecarTrees, EncodeLists;
    BackfillIsFree(c, b);
    var filled := Backfilled(b);
    ListsAreTrees(c, filled);
    var lists := [Node(Raws(b.transactions)), Node(Raws(b.ommers))];
    var w := if filled.withdrawals.Some? then [Node(Raws(filled.withdrawals.value))] else [];
    var s := if b.sidecars.Some? then [Node(SidecarTrees(b.sidecars.value))] else [];
    assert BodyTrees(b) == lists + w + s by { assert Raws([]) == []; }
    WriteAllConcat(lists + w, s);
    WriteAllConcat(lists, w);
    NoTrees();
    if filled.withdrawals.Some? {
      VecIsNode(Item(c.withdrawal), filled.withdrawals.value);
      WriteOne(w[0]);
    }
    if b.sidecars.Some? {
      SidecarVecIsNode(b.sidecars.value);
      WriteOne(s[0]);
    }
  }

  /** The encoding of a body is that of its tree. */
  lemma BodyIsTree(c: Codec, b: Body)
    requires EncodableBody(c, b)
    ensures EncodeBody(c, b) == Write(Node(BodyTrees(b)))
  {
    hide FieldsOf, ValidBody, BodyTrees, WriteAll, BodyPayloadLength, Backfilled, EncodeHeader;
    BackfillIsFree(c, b);
    FieldsOfBody(c, b);
    PayloadLengthExact(c, Backfilled(b));
  }

  /** And the encoding of a block that of its header followed by its body's fields. */
  lemma BlockIsTree(c: Codec, b: BscBlock)
    requires EncodableBlock(c, b)
    ensures EncodeBlock(c, b) == Write(Node([Raw(b.header)] + BodyTrees(b.body)))
  {
    hide FieldsOf, ValidBody, BodyTrees, WriteAll, BodyPayloadLength, Backfilled, EncodeHeader, IsHeader;
    BackfillIsFree(c, b.body);
    FieldsOfBody(c, b.body);
    PayloadLengthExact(c, Backfilled(b.body));
    WriteAllConcat([Raw(b.header)], BodyTrees(b.body));
    WriteOne(Raw(b.header));
  }

  /** What a body is read back as, field by field. */
  lemma NormalFormFields(b: Body)
    ensures Normal(b).transactions == b.transactions && Normal(b).ommers == b.ommers
    ensures Normal(b).withdrawals ==
            if b.withdrawals.None? && b.sidecars.Some? then Some([]) else b.withdrawals
    ensures Normal(b).sidecars.Some? <==> b.sidecars.Some?
    ensures b.sidecars.Some? ==>
              && |Normal(b).sidecars.value| == |b.sidecars.value|
              && forall i :: 0 <= i < |b.sidecars.value| ==>
                               Normal(b).sidecars.value[i] == b.sidecars.value[i].(version := 0)
  {
  }
}
