/** RLP encoding (appendix B of the Ethereum Yellow Paper) as the `alloy_rlp` crate writes it. */
module Rlp {
  import opened Primitives

  /** Big-endian bytes of a number, without leading zeros. */
  function BigEndian(n: nat): (b: Bytes) {
    if n == 0 then [] else BigEndian(n / 256) + [n % 256]
  }

  /** The header of a string or list with an n-byte payload.  A payload length is a 64-bit
      `usize`, so its big-endian form has at most eight bytes and the code never wraps. */
  function EncodeHeader(list: bool, n: nat): (h: Bytes)
    ensures |h| >= 1
  {
    if n < 56 then [(if list then 0xC0 else EMPTY_STRING_CODE) + n]
    else [((if list then 0xF7 else 0xB7) + |BigEndian(n)|) % 256] + BigEndian(n)
  }

  function EncodeString(b: Bytes): (r: Bytes) {
    if |b| == 1 && b[0] < EMPTY_STRING_CODE then b else EncodeHeader(false, |b|) + b
  }

  function Concat(items: seq<Bytes>): (r: Bytes) {
    if items == [] then [] else items[0] + Concat(items[1..])
  }

  /** The list whose items are already encoded. */
  function EncodeList(items: seq<Bytes>): (r: Bytes) {
    EncodeHeader(true, |Concat(items)|) + Concat(items)
  }

  lemma {:induction false} ConcatAppend(items: seq<Bytes>, item: Bytes)
    ensures Concat(items + [item]) == Concat(items) + item
  {
    if items == [] {
      assert [item][1..] == [];
    } else {
      assert (items + [item])[1..] == items[1..] + [item];
      ConcatAppend(items[1..], item);
    }
  }

  lemma ConcatTwo(a: Bytes, b: Bytes)
    ensures Concat([a, b]) == a + b
  {
    assert [a, b] == [a] + [b];
    ConcatAppend([a], b);
    ConcatAppend([], a);
    assert [] + [a] == [a];
  }

  lemma {:induction false} ConcatHolds(items: seq<Bytes>, i: nat)
    requires i < |items|
    ensures |items[i]| <= |Concat(items)|
  {
    if i > 0 {
      ConcatHolds(items[1..], i - 1);
    }
  }

  /** The length of a header, as the source computes it without encoding. */
  function LengthOfLength(n: nat): (r: nat)
    ensures r == |EncodeHeader(true, n)| == |EncodeHeader(false, n)|
  {
    if n < 56 then 1 else 1 + |BigEndian(n)|
  }

  /** The length of an encoded string, as the source computes it without encoding. */
  function StringLength(b: Bytes): (r: nat)
    ensures r == |EncodeString(b)|
  {
    if |b| == 1 && b[0] < EMPTY_STRING_CODE then 1 else |b| + LengthOfLength(|b|)
  }

  // ----- Decoding -----

  datatype Error =
    | InputTooShort
    | LeadingZero
    | NonCanonicalSingleByte
    | NonCanonicalSize
    | UnexpectedString
    | UnexpectedList
    | Custom(message: string)

  datatype Result<+T> = Ok(value: T) | Err(error: Error)
  {
    predicate IsFailure() {
      Err?
    }
    function PropagateFailure<U>(): (r: Result<U>)
      requires Err?
    {
      Err(error)
    }
    function Extract(): (r: T)
      requires Ok?
    {
      value
    }
  }

  function FromBigEndian(b: Bytes): (n: nat) {
    if b == [] then 0 else 256 * FromBigEndian(b[..|b| - 1]) + b[|b| - 1]
  }

  /** An item's header and the input that follows it; the payload starts there. */
  datatype Header = Header(list: bool, payloadLength: nat, rest: Bytes)

  /** Reads a header.  A byte below 0x80 is its own payload and has no header. */
  function DecodeHeader(buf: Bytes): (r: Result<Header>)
    ensures r.Ok? ==> r.value.payloadLength <= |r.value.rest| <= |buf|
    ensures r.Ok? ==> |buf| - |r.value.rest| + r.value.payloadLength > 0
    ensures r.Ok? && r.value.list ==> |r.value.rest| < |buf|
    ensures r.Ok? ==> r.value.rest == buf[|buf| - |r.value.rest|..]
  {
    if buf == [] then Err(InputTooShort)
    else
      var b := buf[0];
      if b < EMPTY_STRING_CODE then Ok(Header(false, 1, buf))
      else if b <= 0xB7 then
        var rest := buf[1..];
        if b == 0x81 && rest == [] then Err(InputTooShort)
        else if b == 0x81 && rest[0] < EMPTY_STRING_CODE then Err(NonCanonicalSingleByte)
        else if |rest| < b - 0x80 then Err(InputTooShort)
        else Ok(Header(false, b - 0x80, rest))
      else if b <= 0xBF then DecodeLongHeader(false, b - 0xB7, buf)
      else if b <= 0xF7 then
        if |buf[1..]| < b - 0xC0 then Err(InputTooShort) else Ok(Header(true, b - 0xC0, buf[1..]))
      else DecodeLongHeader(true, b - 0xF7, buf)
  }

  function DecodeLongHeader(list: bool, lenOfLen: nat, buf: Bytes): (r: Result<Header>)
    requires buf != [] && 1 <= lenOfLen <= 8
    ensures r.Ok? ==> 56 <= r.value.payloadLength <= |r.value.rest| < |buf|
    ensures r.Ok? ==> r.value.rest == buf[|buf| - |r.value.rest|..]
  {
    if |buf| - 1 < lenOfLen then Err(InputTooShort)
    else if buf[1] == 0 then Err(LeadingZero)
    else
      var n := FromBigEndian(buf[1..1 + lenOfLen]);
      var rest := buf[1 + lenOfLen..];
      if n < 56 then Err(NonCanonicalSize)
      else if |rest| < n then Err(InputTooShort)
      else Ok(Header(list, n, rest))
  }

  /** The payload of the next item, and the input after it. */
  function DecodeBytes(buf: Bytes, isList: bool): (r: Result<(Bytes, Bytes)>) {
    var h :- DecodeHeader(buf);
    if h.list != isList then Err(if isList then UnexpectedString else UnexpectedList)
    else Ok((h.rest[..h.payloadLength], h.rest[h.payloadLength..]))
  }

  /** The length of the next item, header included. */
  function ItemLength(buf: Bytes): (r: Result<nat>)
    ensures r.Ok? ==> 0 < r.value <= |buf|
  {
    var h :- DecodeHeader(buf);
    Ok(|buf| - |h.rest| + h.payloadLength)
  }

  /** The items of a list payload, headers included. */
  function SplitItems(payload: Bytes): (r: Result<seq<Bytes>>) {
    if payload == [] then Ok([])
    else
      var n :- ItemLength(payload);
      var tail :- SplitItems(payload[n..]);
      Ok([payload[..n]] + tail)
  }

  /** The loop of `decode_raw` that cuts a list payload into items. */
  method DecodeItems(payload: Bytes) returns (r: Result<seq<Bytes>>)
    ensures r == SplitItems(payload)
  {
    var items: seq<Bytes> := [];
    var rest := payload;
    SplitsNothing(SplitItems(payload));
    while rest != []
      invariant SplitItems(payload) == SplitsFrom(items, SplitItems(rest))
      decreases |rest|
    {
      var n := ItemLength(rest);
      if n.Err? {
        return Err(n.error);
      }
      SplitsStep(items, rest, n.value);
      items := items + [rest[..n.value]];
      rest := rest[n.value..];
    }
    r := Ok(items);
    assert items + [] == items;
  }

  lemma SplitsNothing(tail: Result<seq<Bytes>>)
    ensures SplitsFrom([], tail) == tail
  {
    if tail.Ok? {
      assert [] + tail.value == tail.value;
    }
  }

  function SplitsFrom(items: seq<Bytes>, tail: Result<seq<Bytes>>): (r: Result<seq<Bytes>>) {
    if tail.Err? then tail else Ok(items + tail.value)
  }

  lemma SplitsStep(items: seq<Bytes>, rest: Bytes, n: nat)
    requires rest != [] && ItemLength(rest) == Ok(n)
    ensures SplitsFrom(items, SplitItems(rest)) == SplitsFrom(items + [rest[..n]], SplitItems(rest[n..]))
  {
    var tail := SplitItems(rest[n..]);
    if tail.Ok? {
      assert items + ([rest[..n]] + tail.value) == (items + [rest[..n]]) + tail.value;
    }
  }

  // ----- Round trips -----

  function Pow256(k: nat): (n: nat)
    ensures n > 0
  {
    if k == 0 then 1 else 256 * Pow256(k - 1)
  }

  /** A length that a 64-bit `usize` can hold. */
  const USIZE_LIMIT: nat := 0x1_0000_0000_0000_0000

  lemma {:induction false} BigEndianValue(n: nat)
    ensures FromBigEndian(BigEndian(n)) == n
    ensures n > 0 ==> BigEndian(n) != [] && BigEndian(n)[0] != 0
  {
    if n > 0 {
      BigEndianValue(n / 256);
      var b := BigEndian(n);
      assert b[..|b| - 1] == BigEndian(n / 256);
    }
  }

  lemma {:induction false} BigEndianLength(n: nat, k: nat)
    requires n < Pow256(k)
    ensures |BigEndian(n)| <= k
  {
    if n > 0 {
      BigEndianLength(n / 256, k - 1);
    }
  }

  lemma BigEndianUsize(n: nat)
    requires 56 <= n < USIZE_LIMIT
    ensures 1 <= |BigEndian(n)| <= 8 && BigEndian(n)[0] != 0 && FromBigEndian(BigEndian(n)) == n
  {
    BigEndianValue(n);
    assert Pow256(8) == USIZE_LIMIT by {
      assert Pow256(2) == 0x1_0000;
      assert Pow256(4) == 0x1_0000_0000;
      assert Pow256(6) == 0x1_0000_0000_0000;
    }
    BigEndianLength(n, 8);
  }

  /** A header is read back, whatever follows the payload. */
  lemma HeaderRoundTrip(list: bool, n: nat, tail: Bytes)
    requires n < USIZE_LIMIT && n <= |tail|
    requires !list && n == 1 ==> tail[0] >= EMPTY_STRING_CODE
    ensures DecodeHeader(EncodeHeader(list, n) + tail) == Ok(Header(list, n, tail))
  {
    if n < 56 {
      ShortHeaderRoundTrip(list, n, tail);
    } else {
      LongHeaderRoundTrip(list, n, tail);
    }
  }

  lemma ShortHeaderRoundTrip(list: bool, n: nat, tail: Bytes)
    requires n < 56 && n <= |tail|
    requires !list && n == 1 ==> tail[0] >= EMPTY_STRING_CODE
    ensures DecodeHeader(EncodeHeader(list, n) + tail) == Ok(Header(list, n, tail))
  {
    hide DecodeLongHeader, FromBigEndian, BigEndian;
    var buf := EncodeHeader(list, n) + tail;
    assert buf[1..] == tail;
  }

  lemma LongHeaderRoundTrip(list: bool, n: nat, tail: Bytes)
    requires 56 <= n < USIZE_LIMIT && n <= |tail|
    ensures DecodeHeader(EncodeHeader(list, n) + tail) == Ok(Header(list, n, tail))
  {
    BigEndianUsize(n);
    var be := BigEndian(n);
    var code: Byte := (if list then 0xF7 else 0xB7) + |be|;
    assert EncodeHeader(list, n) == [code] + be;
    hide FromBigEndian, BigEndian, EncodeHeader, DecodeLongHeader, DecodeHeader;
    LongHeaderRead(list, code, be, n, tail);
    LongHeaderCode(list, |be|, [code] + be + tail);
  }

  lemma LongHeaderCode(list: bool, lenOfLen: nat, buf: Bytes)
    requires buf != [] && 1 <= lenOfLen <= 8 && buf[0] == (if list then 0xF7 else 0xB7) + lenOfLen
    ensures DecodeHeader(buf) == DecodeLongHeader(list, lenOfLen, buf)
  {
    hide DecodeLongHeader;
  }

  lemma LongHeaderRead(list: bool, code: Byte, be: Bytes, n: nat, tail: Bytes)
    requires 1 <= |be| <= 8 && be[0] != 0 && FromBigEndian(be) == n && 56 <= n <= |tail|
    ensures DecodeLongHeader(list, |be|, [code] + be + tail) == Ok(Header(list, n, tail))
  {
    hide FromBigEndian;
    var buf := [code] + be + tail;
    assert buf[0] == code && buf[1] == be[0];
    assert buf[1..1 + |be|] == be && buf[1 + |be|..] == tail;
  }

  /** r is one RLP item, no more and no less. */
  predicate IsItem(r: Bytes) {
    ItemLength(r) == Ok(|r|)
  }

  /** What follows an item does not change how it is read. */
  lemma HeaderPrefix(r: Bytes, tail: Bytes)
    requires DecodeHeader(r).Ok?
    ensures var h := DecodeHeader(r).value;
            DecodeHeader(r + tail) == Ok(Header(h.list, h.payloadLength, h.rest + tail))
  {
    var buf := r + tail;
    var b := r[0];
    assert buf[0] == b && buf[1..] == r[1..] + tail;
    if 0xB8 <= b <= 0xBF {
      LongHeaderPrefix(false, b - 0xB7, r, tail);
    } else if 0xF8 <= b {
      LongHeaderPrefix(true, b - 0xF7, r, tail);
    }
  }

  lemma LongHeaderPrefix(list: bool, k: nat, r: Bytes, tail: Bytes)
    requires r != [] && 1 <= k <= 8 && DecodeLongHeader(list, k, r).Ok?
    ensures var h := DecodeLongHeader(list, k, r).value;
            DecodeLongHeader(list, k, r + tail) == Ok(Header(h.list, h.payloadLength, h.rest + tail))
  {
    hide FromBigEndian;
    assert |r| >= 1 + k;
    var buf := r + tail;
    assert buf[1..1 + k] == r[1..1 + k];
    assert buf[1 + k..] == r[1 + k..] + tail;
  }

  /** A concatenation of items is cut back into them. */
  lemma {:induction false} SplitConcat(items: seq<Bytes>)
    requires forall i | 0 <= i < |items| :: IsItem(items[i])
    ensures SplitItems(Concat(items)) == Ok(items)
  {
    if items != [] {
      var r, tail := items[0], Concat(items[1..]);
      SplitConcat(items[1..]);
      ItemThen(r, tail);
      assert (r + tail)[..|r|] == r && (r + tail)[|r|..] == tail;
      assert [r] + items[1..] == items;
    }
  }

  lemma ItemThen(r: Bytes, tail: Bytes)
    requires IsItem(r)
    ensures ItemLength(r + tail) == Ok(|r|)
  {
    HeaderPrefix(r, tail);
  }

  lemma PayloadRoundTrip(list: bool, p: Bytes, tail: Bytes)
    requires |p| < USIZE_LIMIT && (!list && |p| == 1 ==> p[0] >= EMPTY_STRING_CODE)
    ensures DecodeBytes(EncodeHeader(list, |p|) + p + tail, list) == Ok((p, tail))
  {
    hide DecodeHeader, EncodeHeader;
    HeaderRoundTrip(list, |p|, p + tail);
    assert EncodeHeader(list, |p|) + p + tail == EncodeHeader(list, |p|) + (p + tail);
    assert (p + tail)[..|p|] == p && (p + tail)[|p|..] == tail;
  }

  lemma PayloadIsItem(list: bool, p: Bytes)
    requires |p| < USIZE_LIMIT && (!list && |p| == 1 ==> p[0] >= EMPTY_STRING_CODE)
    ensures IsItem(EncodeHeader(list, |p|) + p)
  {
    hide DecodeHeader, EncodeHeader;
    HeaderRoundTrip(list, |p|, p);
  }

  lemma StringRoundTrip(b: Bytes, tail: Bytes)
    requires |b| < USIZE_LIMIT
    ensures DecodeBytes(EncodeString(b) + tail, false) == Ok((b, tail))
    ensures IsItem(EncodeString(b))
  {
    if |b| == 1 && b[0] < EMPTY_STRING_CODE {
      assert (b + tail)[..1] == b && (b + tail)[1..] == tail;
    } else {
      hide DecodeBytes, EncodeHeader, IsItem;
      PayloadRoundTrip(false, b, tail);
      PayloadIsItem(false, b);
    }
  }

  lemma ListRoundTrip(items: seq<Bytes>, tail: Bytes)
    requires |Concat(items)| < USIZE_LIMIT
    ensures DecodeBytes(EncodeList(items) + tail, true) == Ok((Concat(items), tail))
    ensures IsItem(EncodeList(items))
  {
    hide DecodeBytes, EncodeHeader, IsItem;
    PayloadRoundTrip(true, Concat(items), tail);
    PayloadIsItem(true, Concat(items));
  }

  // ----- What the numbers and headers mean -----

  /** Big-endian: bytes to the left weigh 256 times as much per byte to the right. */
  lemma {:induction false} PlaceValue(a: Bytes, b: Bytes)
    ensures FromBigEndian(a + b) == FromBigEndian(a) * Pow256(|b|) + FromBigEndian(b)
    ensures |b| == 1 ==> FromBigEndian(b) == b[0]
  {
    if b == [] {
      assert a + b == a;
    } else {
      var n := |b| - 1;
      PlaceValue(a, b[..n]);
      assert (a + b)[..|a| + n] == a + b[..n];
      assert Pow256(|b|) == 256 * Pow256(n);
      Scaled(FromBigEndian(a), Pow256(n), FromBigEndian(b[..n]));
    }
  }

  lemma Scaled(x: nat, y: nat, z: nat)
    ensures 256 * (x * y + z) == x * (256 * y) + 256 * z
  {
  }

  /** b is the whole RLP of the number n, which has no leading zeros. */
  predicate IsNumber(b: Bytes, n: nat) {
    var r := DecodeBytes(b, false);
    r.Ok? && r.value.1 == [] && FromBigEndian(r.value.0) == n && (r.value.0 != [] ==> r.value.0[0] != 0)
  }

  lemma NumberRoundTrip(n: nat)
    requires |BigEndian(n)| < USIZE_LIMIT
    ensures IsNumber(EncodeString(BigEndian(n)), n)
  {
    var b := BigEndian(n);
    BigEndianValue(n);
    assert n == 0 ==> b == [];
    hide BigEndian, FromBigEndian, DecodeBytes, EncodeString;
    StringRoundTrip(b, []);
    assert EncodeString(b) + [] == EncodeString(b);
  }

  /** The code of a header, and the number after it: below 56 the code holds the payload length,
      above it holds how many bytes the length takes. */
  lemma HeaderShape(list: bool, n: nat)
    requires n < USIZE_LIMIT
    ensures var h := EncodeHeader(list, n);
            if n <= 55 then h == [(if list then 192 else 128) + n]
            else && 2 <= |h| <= 9
                 && h[0] == (if list then 247 else 183) + |h| - 1
                 && h[1] != 0 && FromBigEndian(h[1..]) == n
  {
    if n >= 56 {
      BigEndianUsize(n);
      var h := EncodeHeader(list, n);
      assert h[1..] == BigEndian(n);
    }
  }

  /** The byte strings read as a header, exactly: a byte below 0x80 on its own, or a header as it
      is written, with its payload behind it and no single byte that needed none. */
  lemma HeaderReadExactly(buf: Bytes, list: bool, n: nat, rest: Bytes)
    requires |buf| < USIZE_LIMIT
    ensures DecodeHeader(buf) == Ok(Header(list, n, rest)) <==>
            if buf != [] && buf[0] < 0x80 then !list && n == 1 && rest == buf
            else && n <= |rest| && buf == EncodeHeader(list, n) + rest
                 && (!list && n == 1 ==> rest[0] >= 0x80)
  {
    if buf != [] && buf[0] >= 0x80 {
      if DecodeHeader(buf) == Ok(Header(list, n, rest)) {
        HeaderReread(buf, list, n, rest);
      }
      if n <= |rest| && buf == EncodeHeader(list, n) + rest && (!list && n == 1 ==> rest[0] >= 0x80) {
        HeaderRoundTrip(list, n, rest);
      }
    }
  }

  lemma HeaderReread(buf: Bytes, list: bool, n: nat, rest: Bytes)
    requires buf != [] && buf[0] >= 0x80 && DecodeHeader(buf) == Ok(Header(list, n, rest))
    ensures n <= |rest| && buf == EncodeHeader(list, n) + rest && (!list && n == 1 ==> rest[0] >= 0x80)
  {
    hide BigEndian, FromBigEndian;
    var b := buf[0];
    if 0xB8 <= b <= 0xBF {
      LongHeaderReread(false, b - 0xB7, buf, n, rest);
    } else if 0xF8 <= b {
      LongHeaderReread(true, b - 0xF7, buf, n, rest);
    } else {
      assert buf == [b] + buf[1..];
    }
  }

  lemma LongHeaderReread(list: bool, k: nat, buf: Bytes, n: nat, rest: Bytes)
    requires buf != [] && 1 <= k <= 8 && buf[0] == (if list then 0xF7 else 0xB7) + k
    requires DecodeLongHeader(list, k, buf) == Ok(Header(list, n, rest))
    ensures 56 <= n <= |rest| && buf == EncodeHeader(list, n) + rest
  {
    hide BigEndian, FromBigEndian, DecodeLongHeader, EncodeHeader;
    var be := LongHeaderParts(list, k, buf, n, rest);
    BigEndianInverse(be);
    LongHeaderBytes(list, n);
    assert buf == [buf[0]] + be + rest;
  }

  lemma LongHeaderParts(list: bool, k: nat, buf: Bytes, n: nat, rest: Bytes) returns (be: Bytes)
    requires buf != [] && 1 <= k <= 8 && DecodeLongHeader(list, k, buf) == Ok(Header(list, n, rest))
    ensures |buf| >= 1 + k && be == buf[1..1 + k] && be[0] != 0 && FromBigEndian(be) == n && rest == buf[1 + k..]
  {
    hide FromBigEndian;
    be := buf[1..1 + k];
  }

  lemma LongHeaderBytes(list: bool, n: nat)
    requires n >= 56 && |BigEndian(n)| <= 8
    ensures EncodeHeader(list, n) == [(if list then 0xF7 else 0xB7) + |BigEndian(n)|] + BigEndian(n)
  {
    hide BigEndian;
  }

  lemma {:induction false} BigEndianInverse(b: Bytes)
    requires b != [] && b[0] != 0
    ensures BigEndian(FromBigEndian(b)) == b && FromBigEndian(b) > 0
  {
    var n := FromBigEndian(b);
    if |b| == 1 {
      assert b[..0] == [];
      assert FromBigEndian([]) == 0;
      assert BigEndian(n) == BigEndian(0) + [b[0]];
    } else {
      BigEndianInverse(b[..|b| - 1]);
      assert n / 256 == FromBigEndian(b[..|b| - 1]) && n % 256 == b[|b| - 1];
    }
  }

  /** A payload is cut into items exactly when it is their concatenation. */
  lemma SplitExactly(payload: Bytes, items: seq<Bytes>)
    ensures SplitItems(payload) == Ok(items) <==>
            Concat(items) == payload && forall i | 0 <= i < |items| :: IsItem(items[i])
  {
    hide IsItem;
    if SplitItems(payload) == Ok(items) {
      SplitOnly(payload, items);
    }
    if Concat(items) == payload && forall i | 0 <= i < |items| :: IsItem(items[i]) {
      SplitConcat(items);
    }
  }

  lemma {:induction false} SplitOnly(payload: Bytes, items: seq<Bytes>)
    requires SplitItems(payload) == Ok(items)
    ensures Concat(items) == payload && forall i | 0 <= i < |items| :: IsItem(items[i])
  {
    hide IsItem, ItemLength;
    if payload != [] {
      var n := ItemLength(payload).value;
      SplitOnly(payload[n..], items[1..]);
      FirstItem(payload, n);
      assert payload == payload[..n] + payload[n..];
    }
  }

  /** The first item of a payload is read the same when nothing follows it. */
  lemma FirstItem(payload: Bytes, n: nat)
    requires ItemLength(payload) == Ok(n)
    ensures IsItem(payload[..n])
  {
    var item := payload[..n];
    var b := payload[0];
    assert item[0] == b && item[1..] == payload[1..n];
    if 0xB8 <= b <= 0xBF {
      LongItem(false, b - 0xB7, payload, n);
    } else if 0xF8 <= b {
      LongItem(true, b - 0xF7, payload, n);
    }
  }

  lemma LongItem(list: bool, k: nat, payload: Bytes, n: nat)
    requires payload != [] && 1 <= k <= 8 && DecodeLongHeader(list, k, payload).Ok?
    requires var h := DecodeLongHeader(list, k, payload).value;
             n == |payload| - |h.rest| + h.payloadLength
    ensures var h := DecodeLongHeader(list, k, payload).value;
            DecodeLongHeader(list, k, payload[..n]) == Ok(Header(list, h.payloadLength, h.rest[..h.payloadLength]))
  {
    hide FromBigEndian;
    var item := payload[..n];
    assert item[1..1 + k] == payload[1..1 + k];
    var h := DecodeLongHeader(list, k, payload).value;
    assert item[1 + k..] == h.rest[..h.payloadLength];
  }
}
