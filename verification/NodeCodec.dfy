/** Decoding of trie nodes, and that it inverts encoding. */
module NodeCodec {
  import opened Primitives
  import opened Rlp
  import opened HexPrefixes
  import opened Masks
  import opened Tries
  import opened Nodes

  datatype TrieNode =
    | EmptyRoot
    | BranchNode(stack: seq<Bytes>, stateMask: Mask)
    | ExtensionNode(key: Nibbles, child: Bytes)
    | LeafNode(key: Nibbles, value: Bytes)

  /** A branch holds exactly the references its mask announces. */
  predicate Counted(n: TrieNode) {
    n.BranchNode? ==> |n.stack| == Rank(n.stateMask, 16)
  }

  function EncodeNode(n: TrieNode): (b: Bytes)
    requires Counted(n)
  {
    match n
    case EmptyRoot => [EMPTY_STRING_CODE]
    case LeafNode(key, value) => Encode(Leaf(key, value))
    case ExtensionNode(key, child) => ExtensionRlp(key, child)
    case BranchNode(stack, mask) => BranchRlp(stack, mask)
  }

  // ----- Decoding -----

  /** A reference has at most 33 bytes. */
  function FromRawRlp(data: Bytes): (r: Result<Bytes>) {
    if |data| > 33 then Err(Custom("RLP node too large")) else Ok(data)
  }

  /** The children among the first hi items of a branch. */
  function BranchItems(items: seq<Bytes>, hi: nat): (r: Result<(seq<Bytes>, Mask)>)
    requires hi <= |items| && hi <= 16
  {
    if hi == 0 then Ok(([], {}))
    else
      var (stack, mask) :- BranchItems(items, hi - 1);
      if items[hi - 1] == [EMPTY_STRING_CODE] then Ok((stack, mask))
      else
        var child :- FromRawRlp(items[hi - 1]);
        var x: Nibble := hi - 1;
        Ok((stack + [child], mask + {x}))
  }

  function NodeOfItems(items: seq<Bytes>): (r: Result<TrieNode>) {
    if |items| == 17 then
      var (stack, mask) :- BranchItems(items, 16);
      if items[16] != [EMPTY_STRING_CODE] then Err(Custom("branch node values are not supported"))
      else Ok(BranchNode(stack, mask))
    else if |items| == 2 then
      var (encodedKey, _) :- DecodeBytes(items[0], false);
      if encodedKey == [] then Err(Custom("trie node key empty"))
      else
        match DecodePath(encodedKey)
        case None => Err(Custom("node is not extension or leaf"))
        case Some((leaf, key)) =>
          if leaf then
            var (value, _) :- DecodeBytes(items[1], false);
            Ok(LeafNode(key, value))
          else
            var child :- FromRawRlp(items[1]);
            Ok(ExtensionNode(key, child))
    else Err(Custom("invalid number of items in the list"))
  }

  /** `TrieNode::decode`.  Input after the first item is not looked at. */
  function DecodeNode(buf: Bytes): (r: Result<TrieNode>) {
    var h :- DecodeHeader(buf);
    var payload := h.rest[..h.payloadLength];
    if !h.list then
      if payload == [] then Ok(EmptyRoot) else Err(UnexpectedString)
    else
      var items :- SplitItems(payload);
      NodeOfItems(items)
  }

  /** The loop by which a decoded branch is filled. */
  method FillBranch(items: seq<Bytes>) returns (r: Result<(seq<Bytes>, Mask)>)
    requires |items| == 17
    ensures r == BranchItems(items, 16)
  {
    var stack: seq<Bytes>, mask: Mask := [], {};
    for idx := 0 to 16
      invariant BranchItems(items, idx) == Ok((stack, mask))
    {
      if items[idx] != [EMPTY_STRING_CODE] {
        var child := FromRawRlp(items[idx]);
        if child.Err? {
          BranchItemsFail(items, idx + 1, 16);
          return Err(child.error);
        }
        stack := stack + [child.value];
        mask := mask + {idx};
      }
    }
    r := Ok((stack, mask));
  }

  lemma {:induction false} BranchItemsFail(items: seq<Bytes>, lo: nat, hi: nat)
    requires lo <= hi <= 16 && hi <= |items| && BranchItems(items, lo).Err?
    ensures BranchItems(items, hi) == BranchItems(items, lo)
  {
    if lo < hi {
      BranchItemsFail(items, lo, hi - 1);
    }
  }

  // ----- Round trip -----

  /** A child that can be told from an empty slot and cut out of the branch again. */
  predicate IsReference(r: Bytes) {
    IsItem(r) && |r| <= 33 && r != [EMPTY_STRING_CODE]
  }

  predicate WellFormed(n: TrieNode) {
    && Counted(n)
    && |EncodeNode(n)| < USIZE_LIMIT
    && (n.ExtensionNode? ==> IsItem(n.child) && |n.child| <= 33)
    && (n.BranchNode? ==> forall i | 0 <= i < |n.stack| :: IsReference(n.stack[i]))
  }

  lemma EmptyStringIsItem()
    ensures IsItem([EMPTY_STRING_CODE])
  {
  }

  lemma {:induction false} BranchItemsOfSlots(refs: seq<Bytes>, mask: Mask, items: seq<Bytes>, hi: nat)
    requires |refs| == Rank(mask, 16) && hi <= 16 && |items| == 17
    requires forall i | 0 <= i < |refs| :: IsReference(refs[i])
    requires forall x: Nibble :: items[x] == Slot(refs, mask, x)
    ensures Rank(mask, hi) <= |refs|
    ensures BranchItems(items, hi) == Ok((refs[..Rank(mask, hi)], Lower(mask, hi)))
  {
    hide IsItem, Lower;
    RankMonotone(mask, hi, 16);
    if hi > 0 {
      var x: Nibble := hi - 1;
      BranchItemsOfSlots(refs, mask, items, x);
      assert items[x] == Slot(refs, mask, x);
      if x in mask {
        RankMonotone(mask, x, 16);
        assert IsReference(refs[Rank(mask, x)]);
        assert refs[..Rank(mask, hi)] == refs[..Rank(mask, x)] + [refs[Rank(mask, x)]];
      }
      LowerNext(mask, x);
    } else {
      LowerNone(mask);
    }
  }

  lemma LowerNone(mask: Mask)
    ensures Lower(mask, 0) == {}
  {
  }

  lemma BranchRoundTrip(refs: seq<Bytes>, mask: Mask)
    requires |refs| == Rank(mask, 16) && forall i | 0 <= i < |refs| :: IsReference(refs[i])
    ensures var items := Slots(refs, mask, 16) + [[EMPTY_STRING_CODE]];
            && (forall i | 0 <= i < |items| :: IsItem(items[i]))
            && NodeOfItems(items) == Ok(BranchNode(refs, mask))
  {
    var items := Slots(refs, mask, 16) + [[EMPTY_STRING_CODE]];
    EmptyStringIsItem();
    forall i | 0 <= i < |items|
      ensures IsItem(items[i])
    {
      if i < 16 {
        assert items[i] == Slot(refs, mask, i);
        RankMonotone(mask, i, 16);
      }
    }
    BranchItemsOfSlots(refs, mask, items, 16);
    assert Lower(mask, 16) == mask;
    assert refs[..|refs|] == refs;
  }

  /** An encoded list of items decodes as those items, whatever follows it. */
  lemma DecodeList(items: seq<Bytes>, tail: Bytes)
    requires |Concat(items)| < USIZE_LIMIT && forall i | 0 <= i < |items| :: IsItem(items[i])
    ensures DecodeNode(EncodeList(items) + tail) == NodeOfItems(items)
  {
    ListHeader(items, tail);
    SplitConcat(items);
  }

  lemma ListHeader(items: seq<Bytes>, tail: Bytes)
    requires |Concat(items)| < USIZE_LIMIT
    ensures var p := Concat(items);
            DecodeHeader(EncodeList(items) + tail) == Ok(Header(true, |p|, p + tail)) && (p + tail)[..|p|] == p
  {
    hide DecodeHeader, EncodeHeader;
    var p := Concat(items);
    HeaderRoundTrip(true, |p|, p + tail);
    assert EncodeHeader(true, |p|) + p + tail == EncodeHeader(true, |p|) + (p + tail);
  }

  lemma LeafItems(key: Nibbles, value: Bytes)
    requires |Encode(Leaf(key, value))| < USIZE_LIMIT
    ensures var items := [EncodeString(HexPrefix(key, true)), EncodeString(value)];
            && IsItem(items[0]) && IsItem(items[1]) && |Concat(items)| < USIZE_LIMIT
            && NodeOfItems(items) == Ok(LeafNode(key, value))
  {
    var a, b := EncodeString(HexPrefix(key, true)), EncodeString(value);
    ListLonger([a, b]);
    hide HexPrefix, EncodeString, DecodeBytes, DecodePath, IsItem, EncodeList;
    ConcatTwo(a, b);
    StringLonger(HexPrefix(key, true));
    StringLonger(value);
    StringRoundTrip(HexPrefix(key, true), []);
    StringRoundTrip(value, []);
    assert a + [] == a && b + [] == b;
    PathRoundTrip(key, true);
  }

  lemma ListLonger(items: seq<Bytes>)
    ensures |Concat(items)| < |EncodeList(items)|
  {
  }

  lemma StringLonger(b: Bytes)
    ensures |b| <= |EncodeString(b)|
  {
  }

  lemma ExtensionItems(key: Nibbles, child: Bytes)
    requires |ExtensionRlp(key, child)| < USIZE_LIMIT && IsItem(child) && |child| <= 33
    ensures var items := [EncodeString(HexPrefix(key, false)), child];
            && IsItem(items[0]) && IsItem(items[1]) && |Concat(items)| < USIZE_LIMIT
            && NodeOfItems(items) == Ok(ExtensionNode(key, child))
  {
    var a := EncodeString(HexPrefix(key, false));
    ListLonger([a, child]);
    hide HexPrefix, EncodeString, DecodeBytes, DecodePath, IsItem, EncodeList;
    ConcatTwo(a, child);
    StringLonger(HexPrefix(key, false));
    StringRoundTrip(HexPrefix(key, false), []);
    assert a + [] == a;
    PathRoundTrip(key, false);
  }

  /** Decoding an encoded node gives the node back, whatever follows it. */
  lemma NodeRoundTrip(n: TrieNode, tail: Bytes)
    requires WellFormed(n)
    ensures DecodeNode(EncodeNode(n) + tail) == Ok(n)
  {
    hide DecodeNode, BranchRlp, ExtensionRlp, Encode, IsItem, IsReference;
    match n
    case EmptyRoot => EmptyRootRoundTrip(tail);
    case LeafNode(key, value) => LeafRoundTrip(key, value, tail);
    case ExtensionNode(key, child) => ExtensionRoundTrip(key, child, tail);
    case BranchNode(stack, mask) => BranchBytesRoundTrip(stack, mask, tail);
  }

  lemma LeafRoundTrip(key: Nibbles, value: Bytes, tail: Bytes)
    requires |Encode(Leaf(key, value))| < USIZE_LIMIT
    ensures DecodeNode(Encode(Leaf(key, value)) + tail) == Ok(LeafNode(key, value))
  {
    hide DecodeNode, NodeOfItems, EncodeList, EncodeString, HexPrefix, IsItem;
    LeafItems(key, value);
    DecodeList([EncodeString(HexPrefix(key, true)), EncodeString(value)], tail);
  }

  lemma ExtensionRoundTrip(key: Nibbles, child: Bytes, tail: Bytes)
    requires |ExtensionRlp(key, child)| < USIZE_LIMIT && IsItem(child) && |child| <= 33
    ensures DecodeNode(ExtensionRlp(key, child) + tail) == Ok(ExtensionNode(key, child))
  {
    hide DecodeNode, NodeOfItems, EncodeList, EncodeString, HexPrefix, IsItem;
    ExtensionItems(key, child);
    DecodeList([EncodeString(HexPrefix(key, false)), child], tail);
  }

  lemma BranchBytesRoundTrip(stack: seq<Bytes>, mask: Mask, tail: Bytes)
    requires |stack| == Rank(mask, 16) && forall i | 0 <= i < |stack| :: IsReference(stack[i])
    requires |BranchRlp(stack, mask)| < USIZE_LIMIT
    ensures DecodeNode(BranchRlp(stack, mask) + tail) == Ok(BranchNode(stack, mask))
  {
    hide DecodeNode, NodeOfItems, EncodeList, Slot, IsItem, IsReference, Slots;
    var items := Slots(stack, mask, 16) + [[EMPTY_STRING_CODE]];
    ListLonger(items);
    BranchRoundTrip(stack, mask);
    DecodeList(items, tail);
  }

  lemma EmptyRootRoundTrip(tail: Bytes)
    ensures DecodeNode([EMPTY_STRING_CODE] + tail) == Ok(EmptyRoot)
  {
    assert ([EMPTY_STRING_CODE] + tail)[1..] == tail;
  }

  // ----- The branch decoder that works without cutting the payload first -----

  /** The loop of `BranchNode::decode` from nibble idx on: a child's length is taken to be its
      payload length plus the length of a header for it. */
  function BranchFrom(bytes: Bytes, idx: nat, stack: seq<Bytes>, mask: Mask): (r: Result<TrieNode>)
    requires idx <= 16
    decreases 16 - idx
  {
    if idx == 16 then
      var (value, _) :- DecodeBytes(bytes, false);
      if value != [] then Err(Custom("branch values not supported")) else Ok(BranchNode(stack, mask))
    else if |bytes| <= 1 then Err(InputTooShort)
    else if bytes[0] == EMPTY_STRING_CODE then BranchFrom(bytes[1..], idx + 1, stack, mask)
    else
      var h :- DecodeHeader(bytes);
      var len := ChildLength(bytes);
      var child :- FromRawRlp(bytes[..len]);
      var x: Nibble := idx;
      BranchFrom(bytes[len..], idx + 1, stack + [child], mask + {x})
  }

  /** The computed length never runs past the input. */
  function ChildLength(bytes: Bytes): (len: nat)
    requires |bytes| > 1 && DecodeHeader(bytes).Ok?
    ensures len <= |bytes|
    ensures len == if bytes[0] < EMPTY_STRING_CODE then 2 else ItemLength(bytes).value
  {
    HeaderIsCanonical(bytes);
    var n := DecodeHeader(bytes).value.payloadLength;
    n + LengthOfLength(n)
  }

  function DecodeBranch(buf: Bytes): (r: Result<TrieNode>) {
    var (bytes, _) :- DecodeBytes(buf, true);
    BranchFrom(bytes, 0, [], {})
  }

  method DecodeBranchNode(buf: Bytes) returns (r: Result<TrieNode>)
    ensures r == DecodeBranch(buf)
  {
    var payload := DecodeBytes(buf, true);
    if payload.Err? {
      return Err(payload.error);
    }
    var bytes := payload.value.0;
    var stack: seq<Bytes>, mask: Mask := [], {};
    for idx := 0 to 16
      invariant BranchFrom(payload.value.0, 0, [], {}) == BranchFrom(bytes, idx, stack, mask)
    {
      if |bytes| <= 1 {
        return Err(InputTooShort);
      }
      if bytes[0] == EMPTY_STRING_CODE {
        bytes := bytes[1..];
      } else {
        var h := DecodeHeader(bytes);
        if h.Err? {
          return Err(h.error);
        }
        var len := ChildLength(bytes);
        var child := FromRawRlp(bytes[..len]);
        if child.Err? {
          return Err(child.error);
        }
        stack := stack + [child.value];
        bytes := bytes[len..];
        mask := mask + {idx};
      }
    }
    var value := DecodeBytes(bytes, false);
    if value.Err? {
      return Err(value.error);
    }
    if value.value.0 != [] {
      return Err(Custom("branch values not supported"));
    }
    r := Ok(BranchNode(stack, mask));
  }

  /** Only the shortest header of a payload length is accepted. */
  lemma HeaderIsCanonical(buf: Bytes)
    requires DecodeHeader(buf).Ok?
    ensures var h := DecodeHeader(buf).value;
            buf[0] >= EMPTY_STRING_CODE ==> |buf| - |h.rest| == LengthOfLength(h.payloadLength)
  {
    var b := buf[0];
    if 0xB8 <= b <= 0xBF {
      BigEndianInverse(buf[1..1 + (b - 0xB7)]);
    } else if 0xF8 <= b {
      BigEndianInverse(buf[1..1 + (b - 0xF7)]);
    }
  }

  /** What remains to be read of a branch from nibble idx on. */
  function Remaining(refs: seq<Bytes>, mask: Mask, idx: nat): (r: seq<Bytes>)
    requires |refs| == Rank(mask, 16) && idx <= 16
  {
    Slots(refs, mask, 16)[idx..] + [[EMPTY_STRING_CODE]]
  }

  lemma RemainingNext(refs: seq<Bytes>, mask: Mask, x: Nibble)
    requires |refs| == Rank(mask, 16)
    ensures Concat(Remaining(refs, mask, x)) == Slot(refs, mask, x) + Concat(Remaining(refs, mask, x + 1))
    ensures Concat(Remaining(refs, mask, x + 1)) != []
  {
    var r := Remaining(refs, mask, x);
    assert r[0] == Slot(refs, mask, x) && r[1..] == Remaining(refs, mask, x + 1);
    ConcatAppend(Slots(refs, mask, 16)[x + 1..], [EMPTY_STRING_CODE]);
  }

  /** The result extends the stack built so far. */
  lemma {:induction false} BranchFromExtends(bytes: Bytes, idx: nat, stack: seq<Bytes>, mask: Mask)
    requires idx <= 16 && BranchFrom(bytes, idx, stack, mask).Ok?
    ensures BranchFrom(bytes, idx, stack, mask).value.BranchNode?
    ensures stack <= BranchFrom(bytes, idx, stack, mask).value.stack
    decreases 16 - idx
  {
    if idx < 16 {
      if bytes[0] == EMPTY_STRING_CODE {
        BranchFromExtends(bytes[1..], idx + 1, stack, mask);
      } else {
        var len := ChildLength(bytes);
        var x: Nibble := idx;
        BranchFromExtends(bytes[len..], idx + 1, stack + [bytes[..len]], mask + {x});
      }
    }
  }

  /** A byte below 0x80 is an item without a header. */
  predicate IsBareByte(r: Bytes) {
    r != [] && r[0] < EMPTY_STRING_CODE
  }

  /** An item other than the empty string does not start like it. */
  lemma ReferenceStart(r: Bytes)
    requires IsReference(r)
    ensures r != [] && r[0] != EMPTY_STRING_CODE && (IsBareByte(r) ==> |r| == 1)
  {
  }

  ghost predicate Rebuilds(refs: seq<Bytes>, mask: Mask, idx: nat)
    requires |refs| == Rank(mask, 16) && idx <= 16 && Rank(mask, idx) <= |refs|
  {
    BranchFrom(Concat(Remaining(refs, mask, idx)), idx, refs[..Rank(mask, idx)], Lower(mask, idx)) ==
    Ok(BranchNode(refs, mask))
  }

  /** From any nibble on, the loop rebuilds the branch exactly when no remaining child is a bare
      byte. */
  lemma {:induction false} BranchFromRoundTrip(refs: seq<Bytes>, mask: Mask, idx: nat)
    requires |refs| == Rank(mask, 16) && idx <= 16 && Rank(mask, idx) <= |refs|
    requires forall i | 0 <= i < |refs| :: IsReference(refs[i])
    ensures Rebuilds(refs, mask, idx) <==> forall i | Rank(mask, idx) <= i < |refs| :: !IsBareByte(refs[i])
    decreases 16 - idx
  {
    hide Rebuilds, IsReference, IsBareByte;
    if idx == 16 {
      LastRebuilds(refs, mask);
    } else {
      var x: Nibble := idx;
      RankMonotone(mask, x, 16);
      RankMonotone(mask, x + 1, 16);
      BranchFromRoundTrip(refs, mask, x + 1);
      hide Rank;
      if x !in mask {
        SkippedRebuilds(refs, mask, x);
      } else if IsBareByte(refs[Rank(mask, x)]) {
        BareBreaks(refs, mask, x);
      } else {
        ChildRebuilds(refs, mask, x);
      }
    }
  }

  lemma LastRebuilds(refs: seq<Bytes>, mask: Mask)
    requires |refs| == Rank(mask, 16)
    ensures Rebuilds(refs, mask, 16)
  {
    assert Remaining(refs, mask, 16) == [] + [[EMPTY_STRING_CODE]];
    ConcatAppend([], [EMPTY_STRING_CODE]);
    assert Concat(Remaining(refs, mask, 16)) == [EMPTY_STRING_CODE];
    assert refs[..|refs|] == refs && Lower(mask, 16) == mask;
  }

  lemma SkippedRebuilds(refs: seq<Bytes>, mask: Mask, x: Nibble)
    requires |refs| == Rank(mask, 16) && x !in mask && Rank(mask, x) <= |refs| && Rank(mask, x + 1) == Rank(mask, x)
    ensures Rebuilds(refs, mask, x) <==> Rebuilds(refs, mask, x + 1)
  {
    LowerNext(mask, x);
    RemainingNext(refs, mask, x);
    var rest := Concat(Remaining(refs, mask, x + 1));
    var bytes := [EMPTY_STRING_CODE] + rest;
    assert bytes[1..] == rest && |bytes| > 1;
  }

  lemma ChildRebuilds(refs: seq<Bytes>, mask: Mask, x: Nibble)
    requires |refs| == Rank(mask, 16) && x in mask && Rank(mask, x) < |refs| && Rank(mask, x + 1) == Rank(mask, x) + 1
    requires IsReference(refs[Rank(mask, x)]) && !IsBareByte(refs[Rank(mask, x)])
    ensures Rebuilds(refs, mask, x) <==> Rebuilds(refs, mask, x + 1)
  {
    LowerNext(mask, x);
    RemainingNext(refs, mask, x);
    var r, rest := refs[Rank(mask, x)], Concat(Remaining(refs, mask, x + 1));
    ReferenceStart(r);
    ItemThen(r, rest);
    var bytes := r + rest;
    assert bytes[0] == r[0] && bytes[..|r|] == r && bytes[|r|..] == rest && |bytes| > 1;
    assert ChildLength(bytes) == |r|;
    assert refs[..Rank(mask, x)] + [r] == refs[..Rank(mask, x + 1)];
    hide DecodeHeader, Lower, Rank, Remaining, Concat, ChildLength, ItemLength;
  }

  lemma BareBreaks(refs: seq<Bytes>, mask: Mask, x: Nibble)
    requires |refs| == Rank(mask, 16) && x in mask && Rank(mask, x) < |refs|
    requires IsReference(refs[Rank(mask, x)]) && IsBareByte(refs[Rank(mask, x)])
    ensures !Rebuilds(refs, mask, x)
  {
    RemainingNext(refs, mask, x);
    var r, rest := refs[Rank(mask, x)], Concat(Remaining(refs, mask, x + 1));
    ReferenceStart(r);
    ItemThen(r, rest);
    var bytes := r + rest;
    assert bytes[0] == r[0] && |bytes| > 1 && ChildLength(bytes) == 2;
    var wrong := refs[..Rank(mask, x)] + [bytes[..2]];
    var cont := BranchFrom(bytes[2..], x + 1, wrong, Lower(mask, x) + {x});
    assert BranchFrom(bytes, x, refs[..Rank(mask, x)], Lower(mask, x)) == cont;
    hide DecodeHeader, Lower, Remaining, Concat, ChildLength, ItemLength, BranchFrom;
    if cont.Ok? {
      BranchFromExtends(bytes[2..], x + 1, wrong, Lower(mask, x) + {x});
      assert cont.value.stack[Rank(mask, x)] == wrong[Rank(mask, x)] == bytes[..2];
    }
  }

  /** On the encoding of a well-formed branch, `BranchNode::decode` gives the branch back - and so
      agrees with `TrieNode::decode` - exactly when no child is a bare byte. */
  lemma BranchDecoderAgrees(n: TrieNode, tail: Bytes)
    requires n.BranchNode? && WellFormed(n)
    ensures DecodeBranch(EncodeNode(n) + tail) == DecodeNode(EncodeNode(n) + tail) <==>
            forall i | 0 <= i < |n.stack| :: !IsBareByte(n.stack[i])
  {
    NodeRoundTrip(n, tail);
    var items := Slots(n.stack, n.stateMask, 16) + [[EMPTY_STRING_CODE]];
    ListLonger(items);
    ListRoundTrip(items, tail);
    assert Remaining(n.stack, n.stateMask, 0) == items;
    assert n.stack[..0] == [] && Lower(n.stateMask, 0) == {};
    BranchFromRoundTrip(n.stack, n.stateMask, 0);
  }
}
