/** RLP of blob sidecars: `[[blobs, commitments, proofs], number, hash, index, hash]`
(src/node/primitives.rs). */
module SidecarCodec {
  import opened Rlp

  const BLOB: Shape := Fixed(131072)
  const COMMITMENT: Shape := Fixed(48)
  const PROOF: Shape := Fixed(48)
  const HASH_SIZE: nat := 32

  datatype BlobSidecar = BlobSidecar(blobs: seq<Bytes>, commitments: seq<Bytes>, proofs: seq<Bytes>)

  /** `version` never goes on the RLP wire. */
  datatype Sidecar = Sidecar(
    inner: BlobSidecar, blockNumber: nat, blockHash: Bytes, txIndex: nat, txHash: Bytes, version: nat)

  // ----- lengths, computed without encoding -----

  function StringLength(s: Bytes): nat {
    if |s| == 1 && s[0] < 0x80 then 1 else HeaderLength(|s|) + |s|
  }

  function UintLength(n: nat): nat {
    if n < 0x80 then 1 else 1 + |BigEndian(n)|
  }

  function ElementLength(shape: Shape, e: Bytes): nat {
    match shape
    case Item(_) => |e|
    case Fixed(_) => StringLength(e)
  }

  function ElementsLength(shape: Shape, es: seq<Bytes>): nat {
    if |es| == 0 then 0 else ElementLength(shape, es[0]) + ElementsLength(shape, es[1..])
  }

  function VecLength(shape: Shape, es: seq<Bytes>): nat {
    HeaderLength(ElementsLength(shape, es)) + ElementsLength(shape, es)
  }

  function FieldsLength(i: BlobSidecar): nat {
    VecLength(BLOB, i.blobs) + VecLength(COMMITMENT, i.commitments) + VecLength(PROOF, i.proofs)
  }

  function PayloadLength(s: Sidecar): nat {
    HeaderLength(FieldsLength(s.inner)) + FieldsLength(s.inner)
    + UintLength(s.blockNumber) + StringLength(s.blockHash) + UintLength(s.txIndex) + StringLength(s.txHash)
  }

  function SidecarLength(s: Sidecar): nat {
    HeaderLength(PayloadLength(s)) + PayloadLength(s)
  }

  lemma HeaderSize(length: nat)
    requires length < U64_LIMIT
    ensures |EncodeHeader(Header(true, length))| == HeaderLength(length)
  {
  }

  lemma StringLengthExact(s: Bytes)
    requires |s| < U64_LIMIT
    ensures |EncodeString(s)| == StringLength(s)
  {
  }

  lemma UintLengthExact(n: nat)
    requires n < U64_LIMIT
    ensures |EncodeUint(n)| == UintLength(n)
  {
    U64Length(n);
    BigEndianToNat(n);
    BigEndianLength(n, 1);
    assert Pow256(0) == 1 && Pow256(1) == 256;
    if |BigEndian(n)| == 1 {
      assert ToNat(BigEndian(n)) == BigEndian(n)[0];
    }
  }

  lemma {:induction false} ElementsLengthExact(shape: Shape, es: seq<Bytes>)
    requires ValidElements(shape, es)
    ensures |EncodeElements(shape, es)| == ElementsLength(shape, es)
  {
    if |es| > 0 {
      ElementsLengthExact(shape, es[1..]);
    }
  }

  lemma VecLengthExact(shape: Shape, es: seq<Bytes>)
    requires ValidElements(shape, es)
    ensures ValidVec(shape, es) <==> ElementsLength(shape, es) < U64_LIMIT
    ensures ValidVec(shape, es) ==> |EncodeVec(shape, es)| == VecLength(shape, es)
  {
    ElementsLengthExact(shape, es);
  }

  // ----- encoding -----

  /** Fields have their fixed sizes and the whole fits into an addressable buffer. */
  ghost predicate ValidSidecar(s: Sidecar) {
    && ValidElements(BLOB, s.inner.blobs)
    && ValidElements(COMMITMENT, s.inner.commitments)
    && ValidElements(PROOF, s.inner.proofs)
    && s.blockNumber < U64_LIMIT && s.txIndex < U64_LIMIT
    && |s.blockHash| == HASH_SIZE && |s.txHash| == HASH_SIZE
    && PayloadLength(s) < U64_LIMIT
  }

  lemma ValidVecs(s: Sidecar)
    requires ValidSidecar(s)
    ensures ValidFields(s.inner)
    ensures |EncodeFields(s.inner)| == FieldsLength(s.inner) < U64_LIMIT
  {
    VecLengthExact(BLOB, s.inner.blobs);
    VecLengthExact(COMMITMENT, s.inner.commitments);
    VecLengthExact(PROOF, s.inner.proofs);
  }

  ghost predicate ValidFields(i: BlobSidecar) {
    ValidVec(BLOB, i.blobs) && ValidVec(COMMITMENT, i.commitments) && ValidVec(PROOF, i.proofs)
  }

  function EncodeFields(i: BlobSidecar): Bytes
    requires ValidFields(i)
  {
    EncodeVec(BLOB, i.blobs) + EncodeVec(COMMITMENT, i.commitments) + EncodeVec(PROOF, i.proofs)
  }

  ghost predicate ValidMeta(number: nat, hash: Bytes, index: nat, txHash: Bytes) {
    number < U64_LIMIT && index < U64_LIMIT && |hash| == HASH_SIZE && |txHash| == HASH_SIZE
  }

  function EncodeMeta(number: nat, hash: Bytes, index: nat, txHash: Bytes): Bytes
    requires ValidMeta(number, hash, index, txHash)
  {
    EncodeUint(number) + EncodeString(hash) + EncodeUint(index) + EncodeString(txHash)
  }

  /** Two headers written from the computed lengths, then the fields. */
  function EncodeSidecar(s: Sidecar): Bytes
    requires ValidSidecar(s)
  {
    ValidVecs(s);
    EncodeHeader(Header(true, PayloadLength(s)))
    + EncodeHeader(Header(true, FieldsLength(s.inner)))
    + EncodeFields(s.inner)
    + EncodeMeta(s.blockNumber, s.blockHash, s.txIndex, s.txHash)
  }

  /** The computed lengths frame the payload: the encoding is a list of a list and four
      fields, and `length()` is its size. */
  lemma SidecarFraming(s: Sidecar)
    requires ValidSidecar(s)
    ensures ValidFields(s.inner) && |EncodeFields(s.inner)| < U64_LIMIT
    ensures ValidMeta(s.blockNumber, s.blockHash, s.txIndex, s.txHash)
    ensures var body := EncodeList(EncodeFields(s.inner)) + EncodeMeta(s.blockNumber, s.blockHash, s.txIndex, s.txHash);
            && |body| == PayloadLength(s)
            && EncodeSidecar(s) == EncodeList(body)
    ensures |EncodeSidecar(s)| == SidecarLength(s)
  {
    hide EncodeFields, EncodeElements, ElementsLength, EncodeVec, FieldsLength, EncodeUint, EncodeString;
    hide EncodeHeader, HeaderLength, UintLength, StringLength, ValidVec, ValidElements;
    ValidVecs(s);
    HeaderSize(FieldsLength(s.inner));
    HeaderSize(PayloadLength(s));
    UintLengthExact(s.blockNumber);
    UintLengthExact(s.txIndex);
    StringLengthExact(s.blockHash);
    StringLengthExact(s.txHash);
    var fields := EncodeFields(s.inner);
    var meta := EncodeMeta(s.blockNumber, s.blockHash, s.txIndex, s.txHash);
    var body := EncodeList(fields) + meta;
    assert |body| == PayloadLength(s);
    assert EncodeSidecar(s) == EncodeHeader(Header(true, |body|)) + body;
  }

  // ----- decoding -----

  function DecodeFields(buf: Bytes): Parse<BlobSidecar> {
    var (blobs, r1) :- DecodeVec(BLOB, buf);
    var (commitments, r2) :- DecodeVec(COMMITMENT, r1);
    var (proofs, r3) :- DecodeVec(PROOF, r2);
    Ok(BlobSidecar(blobs, commitments, proofs), r3)
  }

  function DecodeHash(buf: Bytes): Parse<Bytes> {
    DecodeElement(Fixed(HASH_SIZE), buf)
  }

  function DecodeMeta(buf: Bytes): Parse<(nat, Bytes, nat, Bytes)> {
    var (number, r1) :- DecodeUint(buf);
    var (hash, r2) :- DecodeHash(r1);
    var (index, r3) :- DecodeUint(r2);
    var (txHash, r4) :- DecodeHash(r3);
    Ok((number, hash, index, txHash), r4)
  }

  /** The nested list is checked against the bytes its fields consumed, not cut out first. */
  function DecodeInner(buf: Bytes): Parse<BlobSidecar> {
    var (h, r0) :- DecodeHeader(buf);
    if !h.list then Err(UnexpectedString)
    else
      var (inner, r1) :- DecodeFields(r0);
      if |r0| - |r1| != h.length then Err(UnexpectedLength) else Ok(inner, r1)
  }

  function DecodeSidecar(buf: Bytes): Parse<Sidecar> {
    var (h, r0) :- DecodeHeader(buf);
    if !h.list then Err(UnexpectedString)
    else
      var (inner, r1) :- DecodeInner(r0);
      var ((number, hash, index, txHash), r2) :- DecodeMeta(r1);
      if |r0| - |r2| != h.length then Err(UnexpectedLength)
      else Ok(Sidecar(inner, number, hash, index, txHash, 0), r2)
  }

  // ----- exactness -----

  /** A list header whose length is the number of bytes read after it frames those bytes. */
  lemma FrameExact(buf: Bytes, body: Bytes, rest: Bytes)
    ensures DecodeHeader(buf) == Ok(Header(true, |body|), body + rest) <==>
            |body| < U64_LIMIT && buf == EncodeList(body) + rest
  {
    HeaderExact(buf, Header(true, |body|), body + rest);
    if |body| < U64_LIMIT {
      assert EncodeList(body) + rest == EncodeHeader(Header(true, |body|)) + (body + rest);
    }
  }

  lemma FieldsSound(buf: Bytes)
    requires DecodeFields(buf).Ok?
    ensures ValidFields(DecodeFields(buf).value)
    ensures buf == EncodeFields(DecodeFields(buf).value) + DecodeFields(buf).rest
  {
    hide DecodeVec, EncodeVec;
    var d1 := DecodeVec(BLOB, buf);
    VecExact(BLOB, buf, d1.value, d1.rest);
    var d2 := DecodeVec(COMMITMENT, d1.rest);
    VecExact(COMMITMENT, d1.rest, d2.value, d2.rest);
    var d3 := DecodeVec(PROOF, d2.rest);
    VecExact(PROOF, d2.rest, d3.value, d3.rest);
  }

  lemma FieldsComplete(i: BlobSidecar, rest: Bytes)
    requires ValidFields(i)
    ensures DecodeFields(EncodeFields(i) + rest) == Ok(i, rest)
  {
    hide DecodeVec, EncodeVec;
    var b, c, p := EncodeVec(BLOB, i.blobs), EncodeVec(COMMITMENT, i.commitments), EncodeVec(PROOF, i.proofs);
    assert EncodeFields(i) + rest == b + (c + (p + rest));
    VecExact(BLOB, b + (c + (p + rest)), i.blobs, c + (p + rest));
    VecExact(COMMITMENT, c + (p + rest), i.commitments, p + rest);
    VecExact(PROOF, p + rest, i.proofs, rest);
  }

  lemma MetaSound(buf: Bytes)
    requires DecodeMeta(buf).Ok?
    ensures var (n, h, i, t) := DecodeMeta(buf).value;
            ValidMeta(n, h, i, t) && buf == EncodeMeta(n, h, i, t) + DecodeMeta(buf).rest
  {
    hide DecodeUint, EncodeUint, EncodeString, DecodeElement;
    var d1 := DecodeUint(buf);
    UintExact(buf, d1.value, d1.rest);
    var d2 := DecodeHash(d1.rest);
    ElementExact(Fixed(HASH_SIZE), d1.rest, d2.value, d2.rest);
    var d3 := DecodeUint(d2.rest);
    UintExact(d2.rest, d3.value, d3.rest);
    var d4 := DecodeHash(d3.rest);
    ElementExact(Fixed(HASH_SIZE), d3.rest, d4.value, d4.rest);
  }

  lemma MetaComplete(n: nat, h: Bytes, i: nat, t: Bytes, rest: Bytes)
    requires ValidMeta(n, h, i, t)
    ensures DecodeMeta(EncodeMeta(n, h, i, t) + rest) == Ok((n, h, i, t), rest)
  {
    var a, b, c, d := EncodeUint(n), EncodeString(h), EncodeUint(i), EncodeString(t);
    assert EncodeMeta(n, h, i, t) + rest == a + (b + (c + (d + rest)));
    UintExact(a + (b + (c + (d + rest))), n, b + (c + (d + rest)));
    ElementExact(Fixed(HASH_SIZE), b + (c + (d + rest)), h, c + (d + rest));
    UintExact(c + (d + rest), i, d + rest);
    ElementExact(Fixed(HASH_SIZE), d + rest, t, rest);
  }

  lemma InnerExact(buf: Bytes, i: BlobSidecar, rest: Bytes)
    ensures DecodeInner(buf) == Ok(i, rest) <==>
            ValidFields(i) && |EncodeFields(i)| < U64_LIMIT && buf == EncodeList(EncodeFields(i)) + rest
  {
    hide DecodeFields, EncodeFields, DecodeHeader, EncodeList;
    if DecodeInner(buf) == Ok(i, rest) {
      FieldsSound(DecodeHeader(buf).rest);
      FrameExact(buf, EncodeFields(i), rest);
    }
    if ValidFields(i) && |EncodeFields(i)| < U64_LIMIT && buf == EncodeList(EncodeFields(i)) + rest {
      FrameExact(buf, EncodeFields(i), rest);
      FieldsComplete(i, rest);
    }
  }

  lemma SidecarComplete(s: Sidecar, rest: Bytes)
    requires ValidSidecar(s)
    ensures DecodeSidecar(EncodeSidecar(s) + rest) == Ok(s.(version := 0), rest)
  {
    hide DecodeInner, DecodeMeta, EncodeFields, EncodeMeta, DecodeHeader, EncodeList, EncodeSidecar, ValidFields;
    SidecarFraming(s);
    var fields := EncodeFields(s.inner);
    var meta := EncodeMeta(s.blockNumber, s.blockHash, s.txIndex, s.txHash);
    var body := EncodeList(fields) + meta;
    FrameExact(EncodeSidecar(s) + rest, body, rest);
    assert body + rest == EncodeList(fields) + (meta + rest);
    InnerExact(body + rest, s.inner, meta + rest);
    MetaComplete(s.blockNumber, s.blockHash, s.txIndex, s.txHash, rest);
  }

  lemma SidecarSound(buf: Bytes)
    requires DecodeSidecar(buf).Ok?
    ensures ValidSidecar(DecodeSidecar(buf).value) && DecodeSidecar(buf).value.version == 0
    ensures buf == EncodeSidecar(DecodeSidecar(buf).value) + DecodeSidecar(buf).rest
  {
    hide DecodeInner, DecodeMeta, EncodeFields, EncodeMeta, DecodeHeader, EncodeList, EncodeSidecar;
    hide ValidSidecar, ValidFields, PayloadLength, SidecarLength;
    var s, rest := DecodeSidecar(buf).value, DecodeSidecar(buf).rest;
    var r0 := DecodeHeader(buf).rest;
    var r1 := DecodeInner(r0).rest;
    InnerExact(r0, s.inner, r1);
    MetaSound(r1);
    var fields := EncodeFields(s.inner);
    var meta := EncodeMeta(s.blockNumber, s.blockHash, s.txIndex, s.txHash);
    var body := EncodeList(fields) + meta;
    assert r0 == body + rest;
    FrameExact(buf, body, rest);
    SidecarSizes(s);
    SidecarFraming(s);
  }

  /** What was framed has the computed length. */
  lemma SidecarSizes(s: Sidecar)
    requires ValidFields(s.inner) && |EncodeFields(s.inner)| < U64_LIMIT
    requires ValidMeta(s.blockNumber, s.blockHash, s.txIndex, s.txHash)
    ensures var meta := EncodeMeta(s.blockNumber, s.blockHash, s.txIndex, s.txHash);
            |EncodeList(EncodeFields(s.inner)) + meta| == PayloadLength(s)
    ensures PayloadLength(s) < U64_LIMIT ==> ValidSidecar(s)
  {
    VecLengthExact(BLOB, s.inner.blobs);
    VecLengthExact(COMMITMENT, s.inner.commitments);
    VecLengthExact(PROOF, s.inner.proofs);
    UintLengthExact(s.blockNumber);
    UintLengthExact(s.txIndex);
    StringLengthExact(s.blockHash);
    StringLengthExact(s.txHash);
  }

  /** The decoder accepts exactly the encodings: the sidecar comes back with version 0, the
      bytes that follow are untouched, and a list length that differs from the bytes consumed
      is refused. */
  lemma SidecarExact(buf: Bytes, s: Sidecar, rest: Bytes)
    ensures DecodeSidecar(buf) == Ok(s, rest) <==>
            ValidSidecar(s) && s.version == 0 && buf == EncodeSidecar(s) + rest
  {
    if DecodeSidecar(buf) == Ok(s, rest) {
      SidecarSound(buf);
    }
    if ValidSidecar(s) && s.version == 0 && buf == EncodeSidecar(s) + rest {
      SidecarComplete(s, rest);
    }
  }
}
