/** Recursive Length Prefix, as Appendix B of the Ethereum Yellow Paper defines it: list and
string headers, byte strings, scalars and lists. Every decoder here accepts exactly the
encodings of what it returns. */
module Rlp {

  type byte = x: int | 0 <= x < 256
  type Bytes = seq<byte>

  const U64_LIMIT: nat := 0x1_0000_0000_0000_0000
  const EMPTY_STRING_CODE: byte := 0x80
  const EMPTY_LIST_CODE: byte := 0xC0

  datatype Error =
    | InputTooShort | NonCanonicalSingleByte | NonCanonicalSize | LeadingZero | Overflow
    | UnexpectedString | UnexpectedList | UnexpectedLength | ListLengthMismatch | ElementRejected

  /** The outcome of reading a value at the front of a buffer, with the bytes that follow. */
  datatype Parse<+T> = Ok(value: T, rest: Bytes) | Err(error: Error) {
    predicate IsFailure() { Err? }
    function PropagateFailure<U>(): Parse<U>
      requires Err?
    {
      Err(error)
    }
    function Extract(): (T, Bytes)
      requires Ok?
    {
      (value, rest)
    }
  }

  // ----- big-endian numbers -----

  function BigEndian(n: nat): Bytes {
    if n == 0 then [] else BigEndian(n / 256) + [n % 256]
  }

  function ToNat(b: Bytes): nat {
    if |b| == 0 then 0 else 256 * ToNat(b[..|b| - 1]) + b[|b| - 1]
  }

  predicate Minimal(b: Bytes) {
    |b| == 0 || b[0] != 0
  }

  lemma {:induction false} BigEndianToNat(n: nat)
    ensures ToNat(BigEndian(n)) == n && Minimal(BigEndian(n))
  {
    if n > 0 {
      BigEndianToNat(n / 256);
      assert BigEndian(n)[..|BigEndian(n)| - 1] == BigEndian(n / 256);
    }
  }

  lemma {:induction false} ToNatBigEndian(b: Bytes)
    requires Minimal(b)
    ensures BigEndian(ToNat(b)) == b
  {
    if |b| > 0 {
      var init, last := b[..|b| - 1], b[|b| - 1];
      ToNatBigEndian(init);
      assert ToNat(b) / 256 == ToNat(init) && ToNat(b) % 256 == last;
      if |init| == 0 {
        assert b == [last];
      } else {
        assert ToNat(init) > 0;
      }
    }
  }

  function Pow256(k: nat): (p: nat)
    ensures p > 0
  {
    if k == 0 then 1 else 256 * Pow256(k - 1)
  }

  lemma {:induction false} BigEndianLength(n: nat, k: nat)
    ensures |BigEndian(n)| <= k <==> n < Pow256(k)
  {
    if n > 0 && k > 0 {
      BigEndianLength(n / 256, k - 1);
    }
  }

  lemma U64Length(n: nat)
    ensures |BigEndian(n)| <= 8 <==> n < U64_LIMIT
  {
    BigEndianLength(n, 8);
    assert Pow256(4) == 0x1_0000_0000;
    assert Pow256(8) == U64_LIMIT;
  }

  // ----- headers -----

  datatype Header = Header(list: bool, length: nat)

  function EncodeHeader(h: Header): Bytes
    requires h.length < U64_LIMIT
  {
    if h.length < 56 then
      [(if h.list then EMPTY_LIST_CODE else EMPTY_STRING_CODE) + h.length]
    else
      U64Length(h.length);
      var be := BigEndian(h.length);
      [(if h.list then 0xF7 else 0xB7) + |be|] + be
  }

  function HeaderLength(length: nat): nat {
    if length < 56 then 1 else 1 + |BigEndian(length)|
  }

  /** A single byte below 0x80 is its own payload, so its header takes no bytes. */
  function DecodeHeader(buf: Bytes): (r: Parse<Header>)
    ensures r.Ok? ==> r.value.length <= |r.rest| <= |buf|
  {
    if |buf| == 0 then Err(InputTooShort)
    else
      var b := buf[0];
      if b < 0x80 then Checked(Header(false, 1), buf)
      else if b <= 0xB7 then
        var rest := buf[1..];
        if b == 0x81 && |rest| == 0 then Err(InputTooShort)
        else if b == 0x81 && rest[0] < 0x80 then Err(NonCanonicalSingleByte)
        else Checked(Header(false, b - 0x80), rest)
      else if b <= 0xBF then DecodeLongHeader(false, b - 0xB7, buf[1..])
      else if b <= 0xF7 then Checked(Header(true, b - 0xC0), buf[1..])
      else DecodeLongHeader(true, b - 0xF7, buf[1..])
  }

  function DecodeLongHeader(list: bool, lengthBytes: nat, rest: Bytes): Parse<Header> {
    if |rest| < lengthBytes then Err(InputTooShort)
    else if lengthBytes > 0 && rest[0] == 0 then Err(LeadingZero)
    else
      var length := ToNat(rest[..lengthBytes]);
      if length < 56 then Err(NonCanonicalSize)
      else Checked(Header(list, length), rest[lengthBytes..])
  }

  function Checked(h: Header, rest: Bytes): Parse<Header> {
    if |rest| < h.length then Err(InputTooShort) else Ok(h, rest)
  }

  /** `buf` starts with the header `h` and `rest` follows, payload first. */
  predicate HeaderAt(buf: Bytes, h: Header, rest: Bytes) {
    && h.length < U64_LIMIT
    && |rest| >= h.length
    && if !h.list && h.length == 1 && rest[0] < 0x80 then buf == rest else buf == EncodeHeader(h) + rest
  }

  lemma LongHeaderSound(list: bool, k: nat, tail: Bytes, length: nat, rest: Bytes)
    requires 0 < k <= 8 && DecodeLongHeader(list, k, tail) == Ok(Header(list, length), rest)
    ensures HeaderAt([(if list then 0xF7 else 0xB7) + k] + tail, Header(list, length), rest)
  {
    var be := tail[..k];
    ToNatBigEndian(be);
    U64Length(length);
    assert tail == be + rest;
  }

  lemma LongHeaderComplete(list: bool, k: nat, tail: Bytes, length: nat, rest: Bytes)
    requires 0 < k <= 8 && length >= 56
    requires HeaderAt([(if list then 0xF7 else 0xB7) + k] + tail, Header(list, length), rest)
    ensures DecodeLongHeader(list, k, tail) == Ok(Header(list, length), rest)
  {
    U64Length(length);
    BigEndianToNat(length);
    var be := BigEndian(length);
    var code := if list then 0xF7 else 0xB7;
    var buf := [code + k] + tail;
    assert buf == [code + |be|] + (be + rest);
    assert buf[0] == code + k == code + |be|;
    assert tail == buf[1..] == be + rest;
    assert tail[..k] == be && tail[k..] == rest;
  }

  lemma LongHeaderExact(buf: Bytes, h: Header, rest: Bytes)
    requires |buf| > 0 && h.length >= 56
    requires buf[0] > (if h.list then 0xF7 else 0xB7) && (!h.list ==> buf[0] <= 0xBF)
    ensures DecodeHeader(buf) == Ok(h, rest) <==> HeaderAt(buf, h, rest)
  {
    var k, tail := buf[0] - (if h.list then 0xF7 else 0xB7), buf[1..];
    assert buf == [(if h.list then 0xF7 else 0xB7) + k] + tail;
    if DecodeHeader(buf) == Ok(h, rest) {
      LongHeaderSound(h.list, k, tail, h.length, rest);
    }
    if HeaderAt(buf, h, rest) {
      LongHeaderComplete(h.list, k, tail, h.length, rest);
    }
  }

  /** The header decoder accepts exactly the canonical headers. */
  lemma HeaderExact(buf: Bytes, h: Header, rest: Bytes)
    ensures DecodeHeader(buf) == Ok(h, rest) <==> HeaderAt(buf, h, rest)
  {
    if |buf| > 0 && (0xB7 < buf[0] <= 0xBF || buf[0] > 0xF7) {
      if h.length >= 56 && h.list == (buf[0] > 0xF7) {
        LongHeaderExact(buf, h, rest);
      } else if HeaderAt(buf, h, rest) {
        U64Length(h.length);
      }
    } else {
      ShortHeaderExact(buf, h, rest);
    }
  }

  lemma ShortHeaderExact(buf: Bytes, h: Header, rest: Bytes)
    requires |buf| == 0 || buf[0] <= 0xB7 || 0xC0 <= buf[0] <= 0xF7
    ensures DecodeHeader(buf) == Ok(h, rest) <==> HeaderAt(buf, h, rest)
  {
    if HeaderAt(buf, h, rest) && h.length >= 56 {
      U64Length(h.length);
    }
    if DecodeHeader(buf) == Ok(h, rest) && buf[0] >= 0x80 {
      assert buf == [buf[0]] + buf[1..];
    }
  }

  // ----- byte strings and scalars -----

  function EncodeString(s: Bytes): Bytes
    requires |s| < U64_LIMIT
  {
    if |s| == 1 && s[0] < 0x80 then s else EncodeHeader(Header(false, |s|)) + s
  }

  function DecodeString(buf: Bytes): Parse<Bytes> {
    var (h, rest) :- DecodeHeader(buf);
    if h.list then Err(UnexpectedList) else Ok(rest[..h.length], rest[h.length..])
  }

  /** Reading a header that sits in front of a string is reading the string's encoding. */
  lemma StringAt(buf: Bytes, s: Bytes, rest: Bytes)
    requires |s| < U64_LIMIT
    ensures HeaderAt(buf, Header(false, |s|), s + rest) <==> buf == EncodeString(s) + rest
  {
    var h := Header(false, |s|);
    if !(|s| == 1 && s[0] < 0x80) {
      assert EncodeHeader(h) + s + rest == EncodeHeader(h) + (s + rest);
    }
  }

  lemma StringExact(buf: Bytes, s: Bytes, rest: Bytes)
    ensures DecodeString(buf) == Ok(s, rest) <==> |s| < U64_LIMIT && buf == EncodeString(s) + rest
  {
    var d, r := DecodeHeader(buf), s + rest;
    HeaderExact(buf, Header(false, |s|), r);
    if |s| < U64_LIMIT {
      StringAt(buf, s, rest);
    }
    assert r[..|s|] == s && r[|s|..] == rest;
    if DecodeString(buf) == Ok(s, rest) {
      assert d.rest == d.rest[..|s|] + d.rest[|s|..];
    }
  }

  function EncodeUint(n: nat): Bytes
    requires n < U64_LIMIT
  {
    U64Length(n);
    EncodeString(BigEndian(n))
  }

  function DecodeUint(buf: Bytes): Parse<nat> {
    var (s, rest) :- DecodeString(buf);
    if |s| > 8 then Err(Overflow)
    else if |s| > 0 && s[0] == 0 then Err(LeadingZero)
    else Ok(ToNat(s), rest)
  }

  lemma UintExact(buf: Bytes, n: nat, rest: Bytes)
    ensures DecodeUint(buf) == Ok(n, rest) <==> n < U64_LIMIT && buf == EncodeUint(n) + rest
  {
    U64Length(n);
    BigEndianToNat(n);
    if DecodeUint(buf) == Ok(n, rest) {
      var s := DecodeString(buf).value;
      ToNatBigEndian(s);
      StringExact(buf, s, rest);
    }
    if n < U64_LIMIT && buf == EncodeUint(n) + rest {
      StringExact(buf, BigEndian(n), rest);
    }
  }

  // ----- list payloads -----

  function EncodeList(payload: Bytes): Bytes
    requires |payload| < U64_LIMIT
  {
    EncodeHeader(Header(true, |payload|)) + payload
  }

  function DecodeList(buf: Bytes): Parse<Bytes> {
    var (h, rest) :- DecodeHeader(buf);
    if !h.list then Err(UnexpectedString) else Ok(rest[..h.length], rest[h.length..])
  }

  lemma ListExact(buf: Bytes, payload: Bytes, rest: Bytes)
    ensures DecodeList(buf) == Ok(payload, rest) <==> |payload| < U64_LIMIT && buf == EncodeList(payload) + rest
  {
    var r := payload + rest;
    HeaderExact(buf, Header(true, |payload|), r);
    if DecodeList(buf) == Ok(payload, rest) {
      assert DecodeHeader(buf).rest == r;
    }
    if |payload| < U64_LIMIT && buf == EncodeList(payload) + rest {
      assert buf == EncodeHeader(Header(true, |payload|)) + r;
      assert r[..|payload|] == payload && r[|payload|..] == rest;
    }
  }

  // ----- whole items -----

  /** One item of any kind, as the bytes it occupies. */
  function DecodeItem(buf: Bytes): Parse<Bytes> {
    var (h, rest) :- DecodeHeader(buf);
    var end := |buf| - |rest| + h.length;
    Ok(buf[..end], buf[end..])
  }

  predicate IsItem(b: Bytes) {
    DecodeItem(b) == Ok(b, [])
  }

  lemma HeaderAtExtends(x: Bytes, h: Header, p: Bytes, rest: Bytes)
    requires HeaderAt(x, h, p)
    ensures HeaderAt(x + rest, h, p + rest)
  {
    if x != p {
      assert EncodeHeader(h) + p + rest == EncodeHeader(h) + (p + rest);
    }
  }

  /** Cutting a buffer after the payload of its first item. */
  lemma HeaderAtCut(buf: Bytes, h: Header, r: Bytes, end: nat)
    requires HeaderAt(buf, h, r) && |r| <= |buf| && end == |buf| - |r| + h.length
    ensures HeaderAt(buf[..end], h, r[..h.length])
    ensures buf[end..] == r[h.length..]
  {
    if buf != r {
      var e := EncodeHeader(h);
      assert buf == e + r && buf[..end] == e + r[..h.length];
    }
  }

  lemma SingleItem(x: Bytes, h: Header, p: Bytes)
    requires DecodeHeader(x) == Ok(h, p) && |p| == h.length
    ensures IsItem(x)
  {
    assert x[..|x|] == x && x[|x|..] == [];
  }

  lemma ItemExact(buf: Bytes, x: Bytes, rest: Bytes)
    ensures DecodeItem(buf) == Ok(x, rest) <==> IsItem(x) && buf == x + rest
  {
    if DecodeItem(buf) == Ok(x, rest) {
      ItemSound(buf, x, rest);
    }
    if IsItem(x) && buf == x + rest {
      ItemComplete(x, rest);
    }
  }

  lemma ItemSound(buf: Bytes, x: Bytes, rest: Bytes)
    requires DecodeItem(buf) == Ok(x, rest)
    ensures IsItem(x) && buf == x + rest
  {
    var h, r := DecodeHeader(buf).value, DecodeHeader(buf).rest;
    HeaderExact(buf, h, r);
    HeaderAtCut(buf, h, r, |x|);
    HeaderExact(x, h, r[..h.length]);
    SingleItem(x, h, r[..h.length]);
  }

  lemma ItemComplete(x: Bytes, rest: Bytes)
    requires IsItem(x)
    ensures DecodeItem(x + rest) == Ok(x, rest)
  {
    var h, p := DecodeHeader(x).value, DecodeHeader(x).rest;
    HeaderExact(x, h, p);
    HeaderAtExtends(x, h, p, rest);
    HeaderExact(x + rest, h, p + rest);
    assert (x + rest)[..|x|] == x && (x + rest)[|x|..] == rest;
  }

  // ----- sequences of elements -----

  /** What a homogeneous list holds: items that a decoder of their own accepts, or byte strings
      of one size. */
  datatype Shape = Item(valid: Bytes -> bool) | Fixed(size: nat)

  predicate ValidElement(shape: Shape, e: Bytes) {
    match shape
    case Item(valid) => IsItem(e) && valid(e)
    case Fixed(size) => |e| == size < U64_LIMIT
  }

  function EncodeElement(shape: Shape, e: Bytes): (b: Bytes)
    requires ValidElement(shape, e)
    ensures |b| > 0
  {
    match shape
    case Item(_) => e
    case Fixed(_) => EncodeString(e)
  }

  function DecodeElement(shape: Shape, buf: Bytes): Parse<Bytes> {
    match shape
    case Item(valid) =>
      var (x, rest) :- DecodeItem(buf);
      if valid(x) then Ok(x, rest) else Err(ElementRejected)
    case Fixed(size) =>
      var (s, rest) :- DecodeString(buf);
      if |s| != size then Err(UnexpectedLength) else Ok(s, rest)
  }

  lemma ElementExact(shape: Shape, buf: Bytes, e: Bytes, rest: Bytes)
    ensures DecodeElement(shape, buf) == Ok(e, rest) <==>
            ValidElement(shape, e) && buf == EncodeElement(shape, e) + rest
  {
    match shape
    case Item(_) => ItemExact(buf, e, rest);
    case Fixed(_) => StringExact(buf, e, rest);
  }

  ghost predicate ValidElements(shape: Shape, es: seq<Bytes>) {
    forall i :: 0 <= i < |es| ==> ValidElement(shape, es[i])
  }

  function EncodeElements(shape: Shape, es: seq<Bytes>): Bytes
    requires ValidElements(shape, es)
  {
    if |es| == 0 then [] else EncodeElement(shape, es[0]) + EncodeElements(shape, es[1..])
  }

  /** Reads elements until the payload is used up. */
  function DecodeElements(shape: Shape, payload: Bytes): Parse<seq<Bytes>>
    decreases |payload|
  {
    if |payload| == 0 then Ok([], [])
    else
      var (e, rest) :- DecodeElement(shape, payload);
      if |rest| >= |payload| then Err(InputTooShort)
      else
        var (es, none) :- DecodeElements(shape, rest);
        Ok([e] + es, none)
  }

  lemma {:induction false} ElementsSound(shape: Shape, payload: Bytes)
    requires DecodeElements(shape, payload).Ok?
    ensures DecodeElements(shape, payload).rest == []
    ensures ValidElements(shape, DecodeElements(shape, payload).value)
    ensures payload == EncodeElements(shape, DecodeElements(shape, payload).value)
    decreases |payload|
  {
    if |payload| > 0 {
      var d := DecodeElement(shape, payload);
      ElementExact(shape, payload, d.value, d.rest);
      ElementsSound(shape, d.rest);
      var es := DecodeElements(shape, d.rest).value;
      assert ([d.value] + es)[1..] == es;
    }
  }

  lemma {:induction false} ElementsComplete(shape: Shape, es: seq<Bytes>)
    requires ValidElements(shape, es)
    ensures DecodeElements(shape, EncodeElements(shape, es)) == Ok(es, [])
  {
    hide DecodeElement, EncodeElement, ValidElement;
    if |es| > 0 {
      var tail := EncodeElements(shape, es[1..]);
      ElementExact(shape, EncodeElements(shape, es), es[0], tail);
      ElementsComplete(shape, es[1..]);
      assert es == [es[0]] + es[1..];
    }
  }

  function EncodeVec(shape: Shape, es: seq<Bytes>): Bytes
    requires ValidVec(shape, es)
  {
    EncodeList(EncodeElements(shape, es))
  }

  ghost predicate ValidVec(shape: Shape, es: seq<Bytes>) {
    ValidElements(shape, es) && |EncodeElements(shape, es)| < U64_LIMIT
  }

  function DecodeVec(shape: Shape, buf: Bytes): Parse<seq<Bytes>> {
    var (payload, rest) :- DecodeList(buf);
    var (es, _) :- DecodeElements(shape, payload);
    Ok(es, rest)
  }

  lemma VecExact(shape: Shape, buf: Bytes, es: seq<Bytes>, rest: Bytes)
    ensures DecodeVec(shape, buf) == Ok(es, rest) <==> ValidVec(shape, es) && buf == EncodeVec(shape, es) + rest
  {
    var d := DecodeList(buf);
    if DecodeVec(shape, buf) == Ok(es, rest) {
      ListExact(buf, d.value, d.rest);
      ElementsSound(shape, d.value);
    }
    if ValidVec(shape, es) && buf == EncodeVec(shape, es) + rest {
      ListExact(buf, EncodeElements(shape, es), rest);
      ElementsComplete(shape, es);
    }
  }
}
