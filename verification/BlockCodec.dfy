/** RLP of blocks and block bodies, whose withdrawals and sidecars are trailing optional
fields (src/node/primitives.rs). A transaction, header or withdrawal stands as the bytes of
its own encoding, one RLP item; which items their decoders accept is a parameter. */
module BlockCodec {
  import opened Chain
  import opened Rlp
  import opened SidecarCodec

  datatype Body = Body(
    transactions: seq<Bytes>, ommers: seq<Bytes>,
    withdrawals: Option<seq<Bytes>>, sidecars: Option<seq<Sidecar>>)

  datatype BscBlock = BscBlock(header: Bytes, body: Body)

  /** Which items the decoders of transactions, headers and withdrawals accept. */
  datatype Codec = Codec(transaction: Bytes -> bool, header: Bytes -> bool, withdrawal: Bytes -> bool)

  // ----- lists of sidecars -----

  ghost predicate ValidSidecars(ss: seq<Sidecar>) {
    forall i :: 0 <= i < |ss| ==> ValidSidecar(ss[i])
  }

  ghost predicate LegacySidecars(ss: seq<Sidecar>) {
    forall i :: 0 <= i < |ss| ==> ss[i].version == 0
  }

  /** What the wire keeps of a list of sidecars. */
  function Versionless(ss: seq<Sidecar>): seq<Sidecar> {
    seq(|ss|, i requires 0 <= i < |ss| => ss[i].(version := 0))
  }

  function EncodeSidecars(ss: seq<Sidecar>): Bytes
    requires ValidSidecars(ss)
  {
    if |ss| == 0 then [] else EncodeSidecar(ss[0]) + EncodeSidecars(ss[1..])
  }

  function SidecarsLength(ss: seq<Sidecar>): nat {
    if |ss| == 0 then 0 else SidecarLength(ss[0]) + SidecarsLength(ss[1..])
  }

  function DecodeSidecars(payload: Bytes): Parse<seq<Sidecar>>
    decreases |payload|
  {
    if |payload| == 0 then Ok([], [])
    else
      var (s, rest) :- DecodeSidecar(payload);
      if |rest| >= |payload| then Err(InputTooShort)
      else
        var (ss, none) :- DecodeSidecars(rest);
        Ok([s] + ss, none)
  }

  lemma {:induction false} SidecarsSound(payload: Bytes)
    requires DecodeSidecars(payload).Ok?
    ensures DecodeSidecars(payload).rest == []
    ensures ValidSidecars(DecodeSidecars(payload).value) && LegacySidecars(DecodeSidecars(payload).value)
    ensures payload == EncodeSidecars(DecodeSidecars(payload).value)
    decreases |payload|
  {
    hide DecodeSidecar, EncodeSidecar, ValidSidecar;
    if |payload| > 0 {
      var d := DecodeSidecar(payload);
      SidecarExact(payload, d.value, d.rest);
      SidecarsSound(d.rest);
      var ss := DecodeSidecars(d.rest).value;
      assert ([d.value] + ss)[1..] == ss;
    }
  }

  lemma {:induction false} SidecarsComplete(ss: seq<Sidecar>)
    requires ValidSidecars(ss)
    ensures DecodeSidecars(EncodeSidecars(ss)) == Ok(Versionless(ss), [])
    ensures |EncodeSidecars(ss)| == SidecarsLength(ss)
  {
    hide DecodeSidecar, EncodeSidecar, ValidSidecar, SidecarLength;
    if |ss| > 0 {
      SidecarComplete(ss[0], EncodeSidecars(ss[1..]));
      SidecarsComplete(ss[1..]);
      SidecarSize(ss[0]);
      assert Versionless(ss) == [ss[0].(version := 0)] + Versionless(ss[1..]);
    } else {
      assert Versionless(ss) == [];
    }
  }

  lemma SidecarSize(s: Sidecar)
    requires ValidSidecar(s)
    ensures |EncodeSidecar(s)| == SidecarLength(s) > 0
  {
    hide EncodeSidecar, ValidSidecar;
    SidecarFraming(s);
  }

  lemma {:induction false} EncodeVersionless(ss: seq<Sidecar>)
    requires ValidSidecars(ss)
    ensures ValidSidecars(Versionless(ss)) && EncodeSidecars(Versionless(ss)) == EncodeSidecars(ss)
  {
    hide ValidSidecar, EncodeSidecar;
    forall i | 0 <= i < |ss|
      ensures ValidSidecar(ss[i].(version := 0)) && EncodeSidecar(ss[i].(version := 0)) == EncodeSidecar(ss[i])
    {
      VersionNotEncoded(ss[i]);
    }
    if |ss| > 0 {
      EncodeVersionless(ss[1..]);
      assert Versionless(ss)[1..] == Versionless(ss[1..]);
    }
  }

  lemma VersionNotEncoded(s: Sidecar)
    requires ValidSidecar(s)
    ensures ValidSidecar(s.(version := 0)) && EncodeSidecar(s.(version := 0)) == EncodeSidecar(s)
  {
    hide ValidElements, EncodeFields, EncodeMeta, EncodeHeader, FieldsLength, HeaderLength, UintLength, StringLength;
  }

  ghost predicate ValidSidecarVec(ss: seq<Sidecar>) {
    ValidSidecars(ss) && |EncodeSidecars(ss)| < U64_LIMIT
  }

  function EncodeSidecarVec(ss: seq<Sidecar>): Bytes
    requires ValidSidecarVec(ss)
  {
    EncodeList(EncodeSidecars(ss))
  }

  function DecodeSidecarVec(buf: Bytes): Parse<seq<Sidecar>> {
    var (payload, rest) :- DecodeList(buf);
    var (ss, _) :- DecodeSidecars(payload);
    Ok(ss, rest)
  }

  lemma SidecarVecExact(buf: Bytes, ss: seq<Sidecar>, rest: Bytes)
    ensures DecodeSidecarVec(buf) == Ok(ss, rest) <==>
            ValidSidecarVec(ss) && LegacySidecars(ss) && buf == EncodeSidecarVec(ss) + rest
  {
    hide DecodeList, EncodeList, EncodeSidecars, DecodeSidecars, ValidSidecars;
    var d := DecodeList(buf);
    if DecodeSidecarVec(buf) == Ok(ss, rest) {
      ListExact(buf, d.value, d.rest);
      SidecarsSound(d.value);
    }
    if ValidSidecarVec(ss) && LegacySidecars(ss) && buf == EncodeSidecarVec(ss) + rest {
      ListExact(buf, EncodeSidecars(ss), rest);
      SidecarsComplete(ss);
      assert Versionless(ss) == ss;
    }
  }

  // ----- trailing optional fields -----

  ghost predicate ValidTrailing(c: Codec, w: Option<seq<Bytes>>, s: Option<seq<Sidecar>>) {
    (w.Some? ==> ValidVec(Item(c.withdrawal), w.value)) && (s.Some? ==> ValidSidecarVec(s.value))
  }

  /** A missing field before a present one is written as an empty string. */
  function EncodeTrailing(c: Codec, w: Option<seq<Bytes>>, s: Option<seq<Sidecar>>): Bytes
    requires ValidTrailing(c, w, s)
  {
    (if w.Some? then EncodeVec(Item(c.withdrawal), w.value) else if s.Some? then [EMPTY_STRING_CODE] else [])
    + (if s.Some? then EncodeSidecarVec(s.value) else [])
  }

  function TrailingLength(c: Codec, w: Option<seq<Bytes>>, s: Option<seq<Sidecar>>): nat {
    (if w.Some? then VecLength(Item(c.withdrawal), w.value) else if s.Some? then 1 else 0)
    + (if s.Some? then HeaderLength(SidecarsLength(s.value)) + SidecarsLength(s.value) else 0)
  }

  /** `left` is what the enclosing list's length still leaves unread. */
  function DecodeWithdrawals(c: Codec, buf: Bytes, left: int): Parse<Option<seq<Bytes>>> {
    if left <= 0 then Ok(None, buf)
    else if |buf| > 0 && buf[0] == EMPTY_STRING_CODE then Ok(None, buf[1..])
    else
      var (w, rest) :- DecodeVec(Item(c.withdrawal), buf);
      Ok(Some(w), rest)
  }

  function DecodeOptionalSidecars(buf: Bytes, left: int): Parse<Option<seq<Sidecar>>> {
    if left <= 0 then Ok(None, buf)
    else if |buf| > 0 && buf[0] == EMPTY_STRING_CODE then Ok(None, buf[1..])
    else
      var (s, rest) :- DecodeSidecarVec(buf);
      Ok(Some(s), rest)
  }

  function DecodeTrailing(c: Codec, buf: Bytes, left: int): Parse<(Option<seq<Bytes>>, Option<seq<Sidecar>>)> {
    var (w, r1) :- DecodeWithdrawals(c, buf, left);
    var (s, r2) :- DecodeOptionalSidecars(r1, left - (|buf| - |r1|));
    Ok((w, s), r2)
  }

  /** The byte strings a decoder reads as these two optional fields. */
  ghost predicate ReadsAs(c: Codec, t: Bytes, w: Option<seq<Bytes>>, s: Option<seq<Sidecar>>)
    requires ValidTrailing(c, w, s)
  {
    var empty := [EMPTY_STRING_CODE];
    match (w, s)
    case (Some(ws), Some(ss)) => t == EncodeVec(Item(c.withdrawal), ws) + EncodeSidecarVec(ss)
    case (Some(ws), None) => t == EncodeVec(Item(c.withdrawal), ws) || t == EncodeVec(Item(c.withdrawal), ws) + empty
    case (None, Some(ss)) => t == empty + EncodeSidecarVec(ss)
    case (None, None) => t == [] || t == empty || t == empty + empty
  }

  lemma ListStartsHigh(payload: Bytes)
    requires |payload| < U64_LIMIT
    ensures |EncodeList(payload)| > 0 && EncodeList(payload)[0] >= EMPTY_LIST_CODE
  {
  }

  lemma WithdrawalsSound(c: Codec, buf: Bytes, left: int)
    requires DecodeWithdrawals(c, buf, left).Ok?
    ensures var Ok(w, rest) := DecodeWithdrawals(c, buf, left);
            match w
            case Some(ws) =>
              left > 0 && ValidVec(Item(c.withdrawal), ws) && buf == EncodeVec(Item(c.withdrawal), ws) + rest
            case None => if left <= 0 then rest == buf else buf == [EMPTY_STRING_CODE] + rest
  {
    hide DecodeVec, EncodeVec, ValidVec;
    var d := DecodeWithdrawals(c, buf, left);
    if d.value.Some? {
      VecExact(Item(c.withdrawal), buf, d.value.value, d.rest);
    }
  }

  lemma WithdrawalsComplete(c: Codec, ws: seq<Bytes>, rest: Bytes, left: int)
    requires ValidVec(Item(c.withdrawal), ws) && left > 0
    ensures DecodeWithdrawals(c, EncodeVec(Item(c.withdrawal), ws) + rest, left) == Ok(Some(ws), rest)
  {
    hide DecodeVec, EncodeList, EncodeElements, ValidElements;
    VecExact(Item(c.withdrawal), EncodeVec(Item(c.withdrawal), ws) + rest, ws, rest);
    ListStartsHigh(EncodeElements(Item(c.withdrawal), ws));
  }

  lemma OptionalSidecarsSound(buf: Bytes, left: int)
    requires DecodeOptionalSidecars(buf, left).Ok?
    ensures var Ok(s, rest) := DecodeOptionalSidecars(buf, left);
            match s
            case Some(ss) => left > 0 && ValidSidecarVec(ss) && LegacySidecars(ss) && buf == EncodeSidecarVec(ss) + rest
            case None => if left <= 0 then rest == buf else buf == [EMPTY_STRING_CODE] + rest
  {
    hide DecodeSidecarVec, EncodeSidecarVec, ValidSidecarVec;
    var d := DecodeOptionalSidecars(buf, left);
    if d.value.Some? {
      SidecarVecExact(buf, d.value.value, d.rest);
    }
  }

  lemma OptionalSidecarsComplete(ss: seq<Sidecar>, rest: Bytes, left: int)
    requires ValidSidecarVec(ss) && LegacySidecars(ss) && left > 0
    ensures DecodeOptionalSidecars(EncodeSidecarVec(ss) + rest, left) == Ok(Some(ss), rest)
  {
    hide DecodeSidecarVec, EncodeList, EncodeSidecars, ValidSidecars;
    SidecarVecExact(EncodeSidecarVec(ss) + rest, ss, rest);
    ListStartsHigh(EncodeSidecars(ss));
  }

  /** Reading the trailing fields up to the end of the list. */
  lemma TrailingSound(c: Codec, buf: Bytes, left: int, w: Option<seq<Bytes>>, s: Option<seq<Sidecar>>, rest: Bytes)
    requires DecodeTrailing(c, buf, left) == Ok((w, s), rest) && |buf| - |rest| == left
    ensures ValidTrailing(c, w, s) && (s.Some? ==> LegacySidecars(s.value))
    ensures exists t :: ReadsAs(c, t, w, s) && buf == t + rest && |t| == left
  {
    hide DecodeWithdrawals, DecodeOptionalSidecars, EncodeVec, EncodeSidecarVec, ValidVec, ValidSidecarVec;
    WithdrawalsSound(c, buf, left);
    var r1 := DecodeWithdrawals(c, buf, left).rest;
    OptionalSidecarsSound(r1, left - (|buf| - |r1|));
    var t := buf[..left];
    assert buf == t + rest by {
      TrailingSplit(c, buf, left, w, s, r1, rest);
    }
    assert t == buf[..|buf| - |rest|];
    TrailingForms(c, buf, left, w, s, r1, rest, t);
  }

  ghost predicate Steps(
    c: Codec, buf: Bytes, left: int, w: Option<seq<Bytes>>, s: Option<seq<Sidecar>>, r1: Bytes, rest: Bytes)
    requires ValidTrailing(c, w, s)
  {
    && |buf| - |rest| == left
    && (match w
        case Some(ws) => left > 0 && buf == EncodeVec(Item(c.withdrawal), ws) + r1
        case None => if left <= 0 then r1 == buf else buf == [EMPTY_STRING_CODE] + r1)
    && var left1 := left - (|buf| - |r1|);
       match s
       case Some(ss) => left1 > 0 && r1 == EncodeSidecarVec(ss) + rest
       case None => if left1 <= 0 then rest == r1 else r1 == [EMPTY_STRING_CODE] + rest
  }

  lemma TrailingSplit(
    c: Codec, buf: Bytes, left: int, w: Option<seq<Bytes>>, s: Option<seq<Sidecar>>, r1: Bytes, rest: Bytes)
    requires ValidTrailing(c, w, s) && Steps(c, buf, left, w, s, r1, rest)
    ensures 0 <= left <= |buf| && buf == buf[..left] + rest
  {
    hide EncodeVec, EncodeSidecarVec, ValidTrailing;
  }

  lemma TrailingForms(
    c: Codec, buf: Bytes, left: int, w: Option<seq<Bytes>>, s: Option<seq<Sidecar>>, r1: Bytes, rest: Bytes, t: Bytes)
    requires ValidTrailing(c, w, s) && Steps(c, buf, left, w, s, r1, rest)
    requires buf == t + rest && |t| == left
    ensures ReadsAs(c, t, w, s)
  {
    hide EncodeVec, EncodeSidecarVec, ValidVec, ValidSidecarVec;
    var empty := [EMPTY_STRING_CODE];
    match (w, s)
    case (Some(ws), Some(ss)) =>
      assert buf == (EncodeVec(Item(c.withdrawal), ws) + EncodeSidecarVec(ss)) + rest;
      assert t == buf[..left];
    case (Some(ws), None) =>
      assert t == buf[..left];
      assert r1 != rest ==> buf == (EncodeVec(Item(c.withdrawal), ws) + empty) + rest;
    case (None, Some(ss)) =>
      assert buf == (empty + EncodeSidecarVec(ss)) + rest;
      assert t == buf[..left];
    case (None, None) =>
      assert t == buf[..left];
  }

  lemma TrailingComplete(c: Codec, t: Bytes, w: Option<seq<Bytes>>, s: Option<seq<Sidecar>>, rest: Bytes)
    requires ValidTrailing(c, w, s) && (s.Some? ==> LegacySidecars(s.value))
    requires ReadsAs(c, t, w, s)
    ensures DecodeTrailing(c, t + rest, |t|) == Ok((w, s), rest)
  {
    hide EncodeVec, EncodeSidecarVec, ValidVec, ValidSidecarVec, LegacySidecars;
    hide DecodeWithdrawals, DecodeOptionalSidecars;
    var empty := [EMPTY_STRING_CODE];
    var a := if w.Some? then EncodeVec(Item(c.withdrawal), w.value) else if t == [] then [] else empty;
    var b := if s.Some? then EncodeSidecarVec(s.value) else if |a| == |t| then [] else empty;
    VecNotEmpty(c, w, s);
    assert t == a + b;
    assert t + rest == a + (b + rest);
    WithdrawalsRead(c, a, w, b + rest, |t|);
    SidecarsRead(b, s, rest, |b|);
  }

  lemma WithdrawalsRead(c: Codec, a: Bytes, w: Option<seq<Bytes>>, rest: Bytes, left: nat)
    requires w.Some? ==>
               ValidVec(Item(c.withdrawal), w.value) && a == EncodeVec(Item(c.withdrawal), w.value) && left > 0
    requires w.None? ==> if left == 0 then a == [] else a == [EMPTY_STRING_CODE]
    ensures DecodeWithdrawals(c, a + rest, left) == Ok(w, rest)
  {
    hide EncodeVec, ValidVec, DecodeVec;
    if w.Some? {
      WithdrawalsComplete(c, w.value, rest, left);
    }
  }

  lemma SidecarsRead(b: Bytes, s: Option<seq<Sidecar>>, rest: Bytes, left: nat)
    requires s.Some? ==>
               ValidSidecarVec(s.value) && LegacySidecars(s.value) && b == EncodeSidecarVec(s.value) && left > 0
    requires s.None? ==> if left == 0 then b == [] else b == [EMPTY_STRING_CODE]
    ensures DecodeOptionalSidecars(b + rest, left) == Ok(s, rest)
  {
    hide EncodeSidecarVec, ValidSidecarVec, DecodeSidecarVec, LegacySidecars;
    if s.Some? {
      OptionalSidecarsComplete(s.value, rest, left);
    }
  }

  lemma VecNotEmpty(c: Codec, w: Option<seq<Bytes>>, s: Option<seq<Sidecar>>)
    requires ValidTrailing(c, w, s)
    ensures w.Some? ==> |EncodeVec(Item(c.withdrawal), w.value)| > 0
    ensures s.Some? ==> |EncodeSidecarVec(s.value)| > 0
  {
  }

  // ----- bodies and blocks -----

  ghost predicate ValidBody(c: Codec, b: Body) {
    && ValidVec(Item(c.transaction), b.transactions) && ValidVec(Item(c.header), b.ommers)
    && ValidTrailing(c, b.withdrawals, b.sidecars)
  }

  predicate IsHeader(c: Codec, b: Bytes) {
    ValidElement(Item(c.header), b)
  }

  /** Withdrawals absent next to sidecars are written as an empty list. */
  function Backfilled(b: Body): Body {
    if b.withdrawals.None? && b.sidecars.Some? then b.(withdrawals := Some([])) else b
  }

  /** What the wire keeps of a body. */
  function Normal(b: Body): Body {
    var filled := Backfilled(b);
    if b.sidecars.Some? then filled.(sidecars := Some(Versionless(b.sidecars.value))) else filled
  }

  function EncodeLists(c: Codec, b: Body): Bytes
    requires ValidVec(Item(c.transaction), b.transactions) && ValidVec(Item(c.header), b.ommers)
  {
    EncodeVec(Item(c.transaction), b.transactions) + EncodeVec(Item(c.header), b.ommers)
  }

  function FieldsOf(c: Codec, b: Body): Bytes
    requires ValidBody(c, b)
  {
    EncodeLists(c, b) + EncodeTrailing(c, b.withdrawals, b.sidecars)
  }

  function BodyPayloadLength(c: Codec, b: Body): nat {
    VecLength(Item(c.transaction), b.transactions) + VecLength(Item(c.header), b.ommers)
    + TrailingLength(c, b.withdrawals, b.sidecars)
  }

  lemma {:induction false} BackfillIsFree(c: Codec, b: Body)
    requires ValidBody(c, b)
    ensures ValidBody(c, Backfilled(b))
    ensures BodyPayloadLength(c, Backfilled(b)) == BodyPayloadLength(c, b)
  {
    hide ValidSidecarVec, SidecarsLength;
    assert EncodeElements(Item(c.withdrawal), []) == [];
  }

  lemma PayloadLengthExact(c: Codec, b: Body)
    requires ValidBody(c, b)
    ensures |FieldsOf(c, b)| == BodyPayloadLength(c, b)
  {
    hide EncodeVec, VecLength, EncodeSidecars, SidecarsLength, ValidElements, ValidSidecars;
    VecLengthExact(Item(c.transaction), b.transactions);
    VecLengthExact(Item(c.header), b.ommers);
    if b.withdrawals.Some? {
      VecLengthExact(Item(c.withdrawal), b.withdrawals.value);
    }
    if b.sidecars.Some? {
      SidecarsComplete(b.sidecars.value);
    }
  }

  ghost predicate EncodableBody(c: Codec, b: Body) {
    ValidBody(c, b) && BodyPayloadLength(c, b) < U64_LIMIT
  }

  ghost predicate EncodableBlock(c: Codec, b: BscBlock) {
    IsHeader(c, b.header) && ValidBody(c, b.body) && |b.header| + BodyPayloadLength(c, b.body) < U64_LIMIT
  }

  /** A list header written from the computed length, then the fields. */
  function EncodeBody(c: Codec, b: Body): Bytes
    requires EncodableBody(c, b)
  {
    BackfillIsFree(c, b);
    var filled := Backfilled(b);
    EncodeHeader(Header(true, BodyPayloadLength(c, filled))) + FieldsOf(c, filled)
  }

  function EncodeBlock(c: Codec, b: BscBlock): Bytes
    requires EncodableBlock(c, b)
  {
    BackfillIsFree(c, b.body);
    var filled := Backfilled(b.body);
    EncodeHeader(Header(true, |b.header| + BodyPayloadLength(c, filled))) + b.header + FieldsOf(c, filled)
  }

  /** The length the block trait reports. It is computed from the body as it is, without the
      backfill that the encoder applies. */
  function RlpLength(c: Codec, header: Bytes, body: Body): nat {
    var payload := |header| + BodyPayloadLength(c, body);
    HeaderLength(payload) + payload
  }

  /** The reported length is the size of the encoding. */
  lemma RlpLengthExact(c: Codec, b: BscBlock)
    requires EncodableBlock(c, b)
    ensures RlpLength(c, b.header, b.body) == |EncodeBlock(c, b)|
  {
    hide FieldsOf, BodyPayloadLength, ValidBody, IsItem, Backfilled;
    BackfillIsFree(c, b.body);
    PayloadLengthExact(c, Backfilled(b.body));
  }

  /** The length of a body, computed without the backfill, is the size of its encoding. */
  lemma BodyLengthExact(c: Codec, b: Body)
    requires EncodableBody(c, b)
    ensures |EncodeBody(c, b)| == HeaderLength(BodyPayloadLength(c, b)) + BodyPayloadLength(c, b)
  {
    hide FieldsOf, BodyPayloadLength, ValidBody, Backfilled;
    BackfillIsFree(c, b);
    PayloadLengthExact(c, Backfilled(b));
  }

  // ----- decoding -----

  function DecodeLists(c: Codec, buf: Bytes): Parse<(seq<Bytes>, seq<Bytes>)> {
    var (transactions, r1) :- DecodeVec(Item(c.transaction), buf);
    var (ommers, r2) :- DecodeVec(Item(c.header), r1);
    Ok((transactions, ommers), r2)
  }

  function DecodeBodyFields(c: Codec, buf: Bytes, left: int): Parse<Body> {
    var ((transactions, ommers), r1) :- DecodeLists(c, buf);
    var ((w, s), r2) :- DecodeTrailing(c, r1, left - (|buf| - |r1|));
    Ok(Body(transactions, ommers, w, s), r2)
  }

  function DecodeBody(c: Codec, buf: Bytes): Parse<Body> {
    var (h, r0) :- DecodeHeader(buf);
    if !h.list then Err(UnexpectedString)
    else
      var (b, r1) :- DecodeBodyFields(c, r0, h.length);
      if |r0| - |r1| != h.length then Err(ListLengthMismatch) else Ok(b, r1)
  }

  function DecodeBlockHeader(c: Codec, buf: Bytes): Parse<Bytes> {
    DecodeElement(Item(c.header), buf)
  }

  function DecodeBlock(c: Codec, buf: Bytes): Parse<BscBlock> {
    var (h, r0) :- DecodeHeader(buf);
    if !h.list then Err(UnexpectedString)
    else
      var (header, r1) :- DecodeBlockHeader(c, r0);
      var (b, r2) :- DecodeBodyFields(c, r1, h.length - (|r0| - |r1|));
      if |r0| - |r2| != h.length then Err(ListLengthMismatch) else Ok(BscBlock(header, b), r2)
  }

  // ----- exactness -----

  ghost predicate Legacy(b: Body) {
    b.sidecars.Some? ==> LegacySidecars(b.sidecars.value)
  }

  /** `fields` is one of the byte strings that read as the body's four fields. */
  ghost predicate FieldsReadAs(c: Codec, fields: Bytes, b: Body)
    requires ValidBody(c, b)
  {
    exists t :: ReadsAs(c, t, b.withdrawals, b.sidecars) && fields == EncodeLists(c, b) + t
  }

  lemma ListsSound(c: Codec, buf: Bytes)
    requires DecodeLists(c, buf).Ok?
    ensures var Ok((txs, ommers), rest) := DecodeLists(c, buf);
            && ValidVec(Item(c.transaction), txs) && ValidVec(Item(c.header), ommers)
            && buf == EncodeVec(Item(c.transaction), txs) + EncodeVec(Item(c.header), ommers) + rest
  {
    hide DecodeVec, EncodeVec, ValidVec;
    var d1 := DecodeVec(Item(c.transaction), buf);
    VecExact(Item(c.transaction), buf, d1.value, d1.rest);
    var d2 := DecodeVec(Item(c.header), d1.rest);
    VecExact(Item(c.header), d1.rest, d2.value, d2.rest);
  }

  lemma ListsComplete(c: Codec, b: Body, rest: Bytes)
    requires ValidBody(c, b)
    ensures DecodeLists(c, EncodeLists(c, b) + rest) == Ok((b.transactions, b.ommers), rest)
  {
    hide DecodeVec, EncodeVec, ValidVec, ValidTrailing;
    var x, y := EncodeVec(Item(c.transaction), b.transactions), EncodeVec(Item(c.header), b.ommers);
    assert EncodeLists(c, b) + rest == x + (y + rest);
    VecExact(Item(c.transaction), x + (y + rest), b.transactions, y + rest);
    VecExact(Item(c.header), y + rest, b.ommers, rest);
  }

  lemma BodyFieldsSound(c: Codec, buf: Bytes, left: int, b: Body, rest: Bytes)
    requires DecodeBodyFields(c, buf, left) == Ok(b, rest) && |buf| - |rest| == left
    ensures ValidBody(c, b) && Legacy(b)
    ensures exists fields :: FieldsReadAs(c, fields, b) && buf == fields + rest && |fields| == left
  {
    hide DecodeLists, DecodeTrailing, EncodeVec, ValidVec, ReadsAs, ValidTrailing, LegacySidecars;
    ListsSound(c, buf);
    var r1 := DecodeLists(c, buf).rest;
    var left1 := left - (|buf| - |r1|);
    var d := DecodeTrailing(c, r1, left1);
    assert d.value == (d.value.0, d.value.1) == (b.withdrawals, b.sidecars);
    TrailingSound(c, r1, left1, b.withdrawals, b.sidecars, rest);
    var t :| ReadsAs(c, t, b.withdrawals, b.sidecars) && r1 == t + rest && |t| == left1;
    var fields := EncodeLists(c, b) + t;
    assert FieldsReadAs(c, fields, b);
    assert buf == fields + rest;
  }

  lemma BodyFieldsComplete(c: Codec, fields: Bytes, b: Body, rest: Bytes)
    requires ValidBody(c, b) && Legacy(b) && FieldsReadAs(c, fields, b)
    ensures DecodeBodyFields(c, fields + rest, |fields|) == Ok(b, rest)
  {
    hide DecodeLists, DecodeTrailing, EncodeVec, ValidVec, ReadsAs, ValidTrailing, LegacySidecars, EncodeLists;
    var t :| ReadsAs(c, t, b.withdrawals, b.sidecars) && fields == EncodeLists(c, b) + t;
    assert fields + rest == EncodeLists(c, b) + (t + rest);
    ListsComplete(c, b, t + rest);
    TrailingComplete(c, t, b.withdrawals, b.sidecars, rest);
  }

  /** A body is read exactly from a list of fields that read as it. */
  lemma BodyExact(c: Codec, buf: Bytes, b: Body, rest: Bytes)
    ensures DecodeBody(c, buf) == Ok(b, rest) <==>
            && ValidBody(c, b) && Legacy(b)
            && exists fields :: FieldsReadAs(c, fields, b) && |fields| < U64_LIMIT && buf == EncodeList(fields) + rest
  {
    hide DecodeHeader, DecodeBodyFields, EncodeList, ValidBody, Legacy, FieldsReadAs;
    if DecodeBody(c, buf) == Ok(b, rest) {
      var h, r0 := DecodeHeader(buf).value, DecodeHeader(buf).rest;
      BodyFieldsSound(c, r0, h.length, b, rest);
      var fields :| FieldsReadAs(c, fields, b) && r0 == fields + rest && |fields| == h.length;
      FrameExact(buf, fields, rest);
    }
    if && ValidBody(c, b) && Legacy(b)
       && exists fields :: FieldsReadAs(c, fields, b) && |fields| < U64_LIMIT && buf == EncodeList(fields) + rest {
      var fields :| FieldsReadAs(c, fields, b) && |fields| < U64_LIMIT && buf == EncodeList(fields) + rest;
      FrameExact(buf, fields, rest);
      BodyFieldsComplete(c, fields, b, rest);
    }
  }

  lemma BlockHeaderExact(c: Codec, buf: Bytes, x: Bytes, rest: Bytes)
    ensures DecodeBlockHeader(c, buf) == Ok(x, rest) <==> IsHeader(c, x) && buf == x + rest
  {
    hide DecodeHeader;
    ItemExact(buf, x, rest);
  }

  lemma BlockComplete(c: Codec, b: BscBlock, fields: Bytes, rest: Bytes)
    requires IsHeader(c, b.header) && ValidBody(c, b.body) && Legacy(b.body)
    requires FieldsReadAs(c, fields, b.body) && |b.header + fields| < U64_LIMIT
    ensures DecodeBlock(c, EncodeList(b.header + fields) + rest) == Ok(b, rest)
  {
    hide DecodeHeader, DecodeBodyFields, EncodeList, ValidBody, Legacy, FieldsReadAs, IsHeader, DecodeBlockHeader;
    var body := b.header + fields;
    FrameExact(EncodeList(body) + rest, body, rest);
    assert body + rest == b.header + (fields + rest);
    BlockHeaderExact(c, body + rest, b.header, fields + rest);
    BodyFieldsComplete(c, fields, b.body, rest);
  }

  lemma BlockSound(c: Codec, buf: Bytes, b: BscBlock, rest: Bytes)
    requires DecodeBlock(c, buf) == Ok(b, rest)
    ensures IsHeader(c, b.header) && ValidBody(c, b.body) && Legacy(b.body)
    ensures exists fields ::
              && FieldsReadAs(c, fields, b.body) && |b.header + fields| < U64_LIMIT
              && buf == EncodeList(b.header + fields) + rest
  {
    hide DecodeHeader, DecodeBodyFields, EncodeList, ValidBody, Legacy, FieldsReadAs, IsHeader, DecodeBlockHeader;
    var h, r0 := DecodeHeader(buf).value, DecodeHeader(buf).rest;
    var r1 := DecodeBlockHeader(c, r0).rest;
    BlockHeaderExact(c, r0, b.header, r1);
    BodyFieldsSound(c, r1, h.length - (|r0| - |r1|), b.body, rest);
    var fields :| FieldsReadAs(c, fields, b.body) && r1 == fields + rest && |fields| == h.length - (|r0| - |r1|);
    assert r0 == (b.header + fields) + rest;
    FrameExact(buf, b.header + fields, rest);
  }

  /** A block is read exactly from a list of its header and fields that read as its body. */
  lemma BlockExact(c: Codec, buf: Bytes, b: BscBlock, rest: Bytes)
    ensures DecodeBlock(c, buf) == Ok(b, rest) <==>
            && IsHeader(c, b.header) && ValidBody(c, b.body) && Legacy(b.body)
            && exists fields ::
                 && FieldsReadAs(c, fields, b.body) && |b.header + fields| < U64_LIMIT
                 && buf == EncodeList(b.header + fields) + rest
  {
    hide DecodeBlock, EncodeList, ValidBody, Legacy, FieldsReadAs, IsHeader;
    if DecodeBlock(c, buf) == Ok(b, rest) {
      BlockSound(c, buf, b, rest);
    }
    if && IsHeader(c, b.header) && ValidBody(c, b.body) && Legacy(b.body)
       && exists fields ::
            && FieldsReadAs(c, fields, b.body) && |b.header + fields| < U64_LIMIT
            && buf == EncodeList(b.header + fields) + rest {
      var fields :|
        && FieldsReadAs(c, fields, b.body) && |b.header + fields| < U64_LIMIT
        && buf == EncodeList(b.header + fields) + rest;
      BlockComplete(c, b, fields, rest);
    }
  }

  // ----- round trips -----

  /** The backfilled fields read as the normal form. */
  lemma FieldsOfNormal(c: Codec, b: Body)
    requires ValidBody(c, b)
    ensures ValidBody(c, Backfilled(b)) && ValidBody(c, Normal(b)) && Legacy(Normal(b))
    ensures FieldsReadAs(c, FieldsOf(c, Backfilled(b)), Normal(b))
  {
    hide EncodeVec, ValidVec, ValidSidecars, EncodeSidecars;
    BackfillIsFree(c, b);
    if b.sidecars.Some? {
      EncodeVersionless(b.sidecars.value);
    }
    var filled, n := Backfilled(b), Normal(b);
    var t := EncodeTrailing(c, filled.withdrawals, filled.sidecars);
    assert ReadsAs(c, t, n.withdrawals, n.sidecars);
  }

  /** Decoding an encoded body gives its normal form and leaves the rest untouched. */
  lemma BodyRoundTrip(c: Codec, b: Body, rest: Bytes)
    requires EncodableBody(c, b)
    ensures DecodeBody(c, EncodeBody(c, b) + rest) == Ok(Normal(b), rest)
  {
    hide FieldsOf, BodyPayloadLength, ValidBody, Backfilled, Normal, Legacy, FieldsReadAs, DecodeBody;
    BackfillIsFree(c, b);
    PayloadLengthExact(c, Backfilled(b));
    FieldsOfNormal(c, b);
    BodyExact(c, EncodeBody(c, b) + rest, Normal(b), rest);
  }

  /** Decoding an encoded block gives its normal form and leaves the rest untouched. */
  lemma BlockRoundTrip(c: Codec, b: BscBlock, rest: Bytes)
    requires EncodableBlock(c, b)
    ensures DecodeBlock(c, EncodeBlock(c, b) + rest) == Ok(b.(body := Normal(b.body)), rest)
  {
    hide FieldsOf, BodyPayloadLength, ValidBody, Backfilled, Normal, Legacy, FieldsReadAs, DecodeBlock, IsHeader;
    BackfillIsFree(c, b.body);
    PayloadLengthExact(c, Backfilled(b.body));
    FieldsOfNormal(c, b.body);
    BlockComplete(c, b.(body := Normal(b.body)), FieldsOf(c, Backfilled(b.body)), rest);
    var fields := FieldsOf(c, Backfilled(b.body));
    assert EncodeBlock(c, b) == EncodeList(b.header + fields);
  }

  /** Two blocks have one encoding exactly when they have one normal form. */
  lemma EncodeBlockInjective(c: Codec, a: BscBlock, b: BscBlock)
    requires EncodableBlock(c, a) && EncodableBlock(c, b)
    ensures EncodeBlock(c, a) == EncodeBlock(c, b) <==> a.(body := Normal(a.body)) == b.(body := Normal(b.body))
  {
    hide EncodeBlock, DecodeBlock, Normal, EncodableBlock;
    if EncodeBlock(c, a) == EncodeBlock(c, b) {
      BlockRoundTrip(c, a, []);
      BlockRoundTrip(c, b, []);
    }
    if a.(body := Normal(a.body)) == b.(body := Normal(b.body)) {
      NormalFormDecides(c, a, b);
    }
  }

  lemma NormalFieldsDecide(c: Codec, a: Body, b: Body)
    requires ValidBody(c, a) && ValidBody(c, b) && Normal(a) == Normal(b)
    ensures ValidBody(c, Backfilled(a)) && ValidBody(c, Backfilled(b))
    ensures FieldsOf(c, Backfilled(a)) == FieldsOf(c, Backfilled(b))
  {
    hide BodyPayloadLength, ValidVec, EncodeVec, ValidSidecars, EncodeSidecars;
    BackfillIsFree(c, a);
    BackfillIsFree(c, b);
    if a.sidecars.Some? {
      EncodeVersionless(a.sidecars.value);
      EncodeVersionless(b.sidecars.value);
    }
  }

  lemma NormalFormDecides(c: Codec, a: BscBlock, b: BscBlock)
    requires EncodableBlock(c, a) && EncodableBlock(c, b)
    requires a.header == b.header && Normal(a.body) == Normal(b.body)
    ensures EncodeBlock(c, a) == EncodeBlock(c, b)
  {
    hide IsHeader, BodyPayloadLength, ValidBody, FieldsOf, Backfilled, Normal;
    NormalFieldsDecide(c, a.body, b.body);
    PayloadLengthExact(c, Backfilled(a.body));
    PayloadLengthExact(c, Backfilled(b.body));
  }

  /** Two bodies have one encoding exactly when they have one normal form. */
  lemma EncodeBodyInjective(c: Codec, a: Body, b: Body)
    requires EncodableBody(c, a) && EncodableBody(c, b)
    ensures EncodeBody(c, a) == EncodeBody(c, b) <==> Normal(a) == Normal(b)
  {
    hide BodyPayloadLength, ValidBody, FieldsOf, Backfilled, Normal, DecodeBody;
    if EncodeBody(c, a) == EncodeBody(c, b) {
      BodyRoundTrip(c, a, []);
      BodyRoundTrip(c, b, []);
    }
    if Normal(a) == Normal(b) {
      NormalFieldsDecide(c, a, b);
      PayloadLengthExact(c, Backfilled(a));
      PayloadLengthExact(c, Backfilled(b));
    }
  }
}
