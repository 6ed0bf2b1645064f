/** The sidecar codec as it runs: an encoder that appends to an output buffer and a decoder
that moves a cursor (src/node/primitives.rs). */
module SidecarStream {
  import opened Rlp
  import opened SidecarCodec

  class Output {
    var bytes: Bytes

    method Put(more: Bytes)
      modifies this
      ensures bytes == old(bytes) + more
    {
      bytes := bytes + more;
    }

    method PutFields(i: BlobSidecar)
      requires ValidFields(i)
      modifies this
      ensures bytes == old(bytes) + EncodeFields(i)
    {
      hide EncodeVec, ValidVec;
      Put(EncodeVec(BLOB, i.blobs));
      Put(EncodeVec(COMMITMENT, i.commitments));
      Put(EncodeVec(PROOF, i.proofs));
    }
  }

  method EncodeInto(s: Sidecar, out: Output)
    requires ValidSidecar(s)
    modifies out
    ensures out.bytes == old(out.bytes) + EncodeSidecar(s)
  {
    hide EncodeFields, FieldsLength, EncodeUint, EncodeString, EncodeHeader, HeaderLength, UintLength, StringLength;
    ValidVecs(s);
    var innerLength := FieldsLength(s.inner);
    var payloadLength := HeaderLength(innerLength) + innerLength + UintLength(s.blockNumber)
                         + StringLength(s.blockHash) + UintLength(s.txIndex) + StringLength(s.txHash);
    out.Put(EncodeHeader(Header(true, payloadLength)));
    out.Put(EncodeHeader(Header(true, innerLength)));
    out.PutFields(s.inner);
    out.Put(EncodeUint(s.blockNumber));
    out.Put(EncodeString(s.blockHash));
    out.Put(EncodeUint(s.txIndex));
    out.Put(EncodeString(s.txHash));
  }

  // ----- decoding -----

  datatype Result<+T> = Value(value: T) | Failure(error: Error) {
    predicate IsFailure() { Failure? }
    function PropagateFailure<U>(): Result<U>
      requires Failure?
    {
      Failure(error)
    }
    function Extract(): T
      requires Value?
    {
      value
    }
  }

  /** A read gives the parse's value or error and, on success, leaves the rest. */
  ghost predicate Reads<T>(p: Parse<T>, r: Result<T>, rest: Bytes) {
    match p
    case Ok(v, after) => r == Value(v) && rest == after
    case Err(e) => r == Failure(e)
  }

  ghost predicate Suffix(whole: Bytes, part: Bytes) {
    |part| <= |whole| && whole[|whole| - |part|..] == part
  }

  lemma SuffixTransitive(a: Bytes, b: Bytes, c: Bytes)
    requires Suffix(a, b) && Suffix(b, c)
    ensures Suffix(a, c)
  {
    assert a[|a| - |c|..] == a[|a| - |b|..][|b| - |c|..];
  }

  lemma SuffixOf(front: Bytes, rest: Bytes)
    ensures Suffix(front + rest, rest)
  {
  }

  /** `buf` is what is left of the input. */
  class Cursor {
    const input: Bytes
    var buf: Bytes

    ghost predicate Valid()
      reads this
    {
      Suffix(input, buf)
    }

    constructor (input: Bytes)
      ensures Valid() && this.input == input && buf == input
    {
      this.input := input;
      buf := input;
    }

    method ReadHeader() returns (r: Result<Header>)
      requires Valid()
      modifies this
      ensures Valid() && Reads(DecodeHeader(old(buf)), r, buf)
    {
      var p := DecodeHeader(buf);
      if p.Ok? {
        HeaderExact(buf, p.value, p.rest);
      }
      r := Advance(p);
    }

    method ReadUint() returns (r: Result<nat>)
      requires Valid()
      modifies this
      ensures Valid() && Reads(DecodeUint(old(buf)), r, buf)
    {
      var p := DecodeUint(buf);
      if p.Ok? {
        UintExact(buf, p.value, p.rest);
        SuffixOf(EncodeUint(p.value), p.rest);
      }
      r := Advance(p);
    }

    method ReadHash() returns (r: Result<Bytes>)
      requires Valid()
      modifies this
      ensures Valid() && Reads(DecodeHash(old(buf)), r, buf)
    {
      var p := DecodeHash(buf);
      if p.Ok? {
        ElementExact(Fixed(HASH_SIZE), buf, p.value, p.rest);
        SuffixOf(EncodeElement(Fixed(HASH_SIZE), p.value), p.rest);
      }
      r := Advance(p);
    }

    method ReadVec(shape: Shape) returns (r: Result<seq<Bytes>>)
      requires Valid()
      modifies this
      ensures Valid() && Reads(DecodeVec(shape, old(buf)), r, buf)
    {
      var p := DecodeVec(shape, buf);
      if p.Ok? {
        VecExact(shape, buf, p.value, p.rest);
        SuffixOf(EncodeVec(shape, p.value), p.rest);
      }
      r := Advance(p);
    }

    method ReadFields() returns (r: Result<BlobSidecar>)
      requires Valid()
      modifies this
      ensures Valid() && Reads(DecodeFields(old(buf)), r, buf)
    {
      hide DecodeVec, Suffix;
      var blobs :- ReadVec(BLOB);
      var commitments :- ReadVec(COMMITMENT);
      var proofs :- ReadVec(PROOF);
      return Value(BlobSidecar(blobs, commitments, proofs));
    }

    method Advance<T>(p: Parse<T>) returns (r: Result<T>)
      requires Valid() && (p.Ok? ==> Suffix(buf, p.rest))
      modifies this
      ensures Valid() && Reads(p, r, buf)
    {
      hide Suffix;
      match p {
        case Ok(v, rest) =>
          SuffixTransitive(input, buf, rest);
          buf := rest;
          return Value(v);
        case Err(e) =>
          return Failure(e);
      }
    }
  }

  /** After an error too the cursor stands somewhere in its input. */
  method DecodeFrom(cursor: Cursor) returns (r: Result<Sidecar>)
    requires cursor.Valid()
    modifies cursor
    ensures cursor.Valid() && Reads(DecodeSidecar(old(cursor.buf)), r, cursor.buf)
  {
    hide Suffix, DecodeHeader, DecodeFields, DecodeUint, DecodeHash;
    var header :- cursor.ReadHeader();
    if !header.list {
      return Failure(UnexpectedString);
    }
    var remainingBefore := |cursor.buf|;
    var innerHeader :- cursor.ReadHeader();
    if !innerHeader.list {
      return Failure(UnexpectedString);
    }
    var innerRemaining := |cursor.buf|;
    var inner :- cursor.ReadFields();
    var innerConsumed := innerRemaining - |cursor.buf|;
    if innerConsumed != innerHeader.length {
      return Failure(UnexpectedLength);
    }
    var number :- cursor.ReadUint();
    var hash :- cursor.ReadHash();
    var index :- cursor.ReadUint();
    var txHash :- cursor.ReadHash();
    var consumed := remainingBefore - |cursor.buf|;
    if consumed != header.length {
      return Failure(UnexpectedLength);
    }
    return Value(Sidecar(inner, number, hash, index, txHash, 0));
  }
}
