/** Which byte strings decode as trie nodes, and as which: said through the items of a list and the
    nibbles of a compact path, for every input. */
module NodeReadings {
  import opened Primitives
  import opened Rlp
  import opened HexPrefixes
  import opened Masks
  import opened Tries
  import opened NodeCodec
  import opened Verify

  /** The bytes are a compact path: a flag nibble for kind and parity, one nibble that is not
      looked at when the path is even, and the path. */
  ghost predicate PathSpelled(hp: Bytes, leaf: bool, key: Nibbles) {
    var u := Unpack(hp);
    var odd := |key| % 2;
    |u| >= 2 && u[0] == (if leaf then 2 else 0) + odd && u[2 - odd..] == key
  }

  /** The items of the list that stands for a node: a compact path and a string for a leaf, a
      compact path and a reference for an extension, sixteen children and the empty string for a
      branch. */
  ghost predicate SpelledBy(n: TrieNode, items: seq<Bytes>) {
    match n
    case EmptyRoot => false
    case LeafNode(key, value) =>
      && |items| == 2 && items[1] == EncodeString(value)
      && exists hp :: items[0] == EncodeString(hp) && PathSpelled(hp, true, key)
    case ExtensionNode(key, child) =>
      && |items| == 2 && items[1] == child && |child| <= 33
      && exists hp :: items[0] == EncodeString(hp) && PathSpelled(hp, false, key)
    case BranchNode(stack, mask) =>
      && |items| == 17 && items[16] == [0x80] && |stack| == Rank(mask, 16)
      && (forall x: Nibble | x !in mask :: items[x] == [0x80])
      && (forall x: Nibble | x in mask :: ChildAt(stack, mask, x, items[x]))
  }

  /** The item is the child that the stack holds for the nibble. */
  ghost predicate ChildAt(stack: seq<Bytes>, mask: Mask, x: Nibble, item: Bytes) {
    Rank(mask, x) < |stack| && item == stack[Rank(mask, x)] && item != [0x80] && |item| <= 33
  }

  ghost predicate AllItems(items: seq<Bytes>) {
    forall i | 0 <= i < |items| :: IsItem(items[i])
  }

  // ----- Strings and paths -----

  lemma StringReread(item: Bytes, b: Bytes)
    requires |item| < USIZE_LIMIT && IsItem(item)
    ensures (DecodeBytes(item, false).Ok? && DecodeBytes(item, false).value.0 == b) <==> item == EncodeString(b)
  {
    hide DecodeBytes, EncodeString, IsItem;
    if item == EncodeString(b) {
      StringLonger(b);
      StringRoundTrip(b, []);
      assert item + [] == item;
    } else if DecodeBytes(item, false).Ok? && DecodeBytes(item, false).value.0 == b {
      StringOnly(item, b);
    }
  }

  lemma StringOnly(item: Bytes, b: Bytes)
    requires IsItem(item) && DecodeBytes(item, false).Ok? && DecodeBytes(item, false).value.0 == b
    ensures item == EncodeString(b)
  {
    var h := DecodeHeader(item).value;
    if item[0] < EMPTY_STRING_CODE {
      assert item[..1] == [item[0]];
    } else {
      HeaderReread(item, h.list, h.payloadLength, h.rest);
      hide DecodeHeader, EncodeHeader;
      assert h.rest == b;
    }
  }

  lemma PathReread(hp: Bytes, leaf: bool, key: Nibbles)
    ensures (hp != [] && DecodePath(hp) == Some((leaf, key))) <==> PathSpelled(hp, leaf, key)
  {
    UnpackLength(hp);
    if hp != [] {
      PathReadExactly(hp, Unpack(hp));
      PathParity(Unpack(hp), leaf, key, DecodePath(hp));
    }
  }

  lemma PathParity(u: Nibbles, leaf: bool, key: Nibbles, r: Option<(bool, Nibbles)>)
    requires |u| >= 2 && |u| % 2 == 0
    requires r == if u[0] >= 4 then None else Some((u[0] >= 2, u[if u[0] == 1 || u[0] == 3 then 1 else 2..]))
    ensures r == Some((leaf, key)) <==>
            u[0] == (if leaf then 2 else 0) + |key| % 2 && u[2 - |key| % 2..] == key
  {
    assert |u[1..]| % 2 == 1 && |u[2..]| % 2 == 0;
  }

  // ----- Items -----

  lemma PathItem(item: Bytes, leaf: bool, key: Nibbles)
    requires |item| < USIZE_LIMIT && IsItem(item)
    ensures (exists hp :: item == EncodeString(hp) && PathSpelled(hp, leaf, key)) <==>
            var r := DecodeBytes(item, false);
            r.Ok? && r.value.0 != [] && DecodePath(r.value.0) == Some((leaf, key))
  {
    hide DecodeBytes, EncodeString, IsItem, DecodePath, PathSpelled;
    var r := DecodeBytes(item, false);
    if r.Ok? {
      StringReread(item, r.value.0);
      PathReread(r.value.0, leaf, key);
    }
    if hp :| item == EncodeString(hp) && PathSpelled(hp, leaf, key) {
      StringReread(item, hp);
      PathReread(hp, leaf, key);
    }
  }

  lemma ShortItemsRead(items: seq<Bytes>, n: TrieNode)
    requires AllItems(items) && |items| == 2 && |items[0]| < USIZE_LIMIT && |items[1]| < USIZE_LIMIT
    ensures NodeOfItems(items) == Ok(n) <==> SpelledBy(n, items)
  {
    assert IsItem(items[0]) && IsItem(items[1]);
    hide DecodeBytes, EncodeString, IsItem, DecodePath, PathSpelled, AllItems, BranchItems, NodeOfItems;
    match n
    case LeafNode(key, value) =>
      PathItem(items[0], true, key);
      StringReread(items[1], value);
      PairRead(items, n);
    case ExtensionNode(key, child) =>
      PathItem(items[0], false, key);
      PairRead(items, n);
    case _ =>
      PairRead(items, n);
  }

  /** How a list of two items is read. */
  lemma PairRead(items: seq<Bytes>, n: TrieNode)
    requires |items| == 2
    ensures var path, second := DecodeBytes(items[0], false), DecodeBytes(items[1], false);
            NodeOfItems(items) == Ok(n) <==>
            && path.Ok? && path.value.0 != []
            && match n
               case LeafNode(key, value) =>
                 DecodePath(path.value.0) == Some((true, key)) && second.Ok? && second.value.0 == value
               case ExtensionNode(key, child) =>
                 DecodePath(path.value.0) == Some((false, key)) && |items[1]| <= 33 && items[1] == child
               case _ => false
  {
    hide DecodeBytes, DecodePath, BranchItems;
  }

  lemma BranchItemsRead(items: seq<Bytes>, n: TrieNode)
    requires AllItems(items) && |items| == 17
    ensures NodeOfItems(items) == Ok(n) <==> SpelledBy(n, items)
  {
    hide IsItem, BranchItems, DecodeBytes;
    if SpelledBy(n, items) {
      BranchSpelled(items, n.stack, n.stateMask);
    }
    if NodeOfItems(items) == Ok(n) {
      BranchItemsFacts(items, 16);
      forall x: Nibble
        ensures if x in n.stateMask then ChildAt(n.stack, n.stateMask, x, items[x]) else items[x] == [0x80]
      {
        BranchItemAt(items, x, 16);
      }
    }
  }

  lemma BranchSpelled(items: seq<Bytes>, stack: seq<Bytes>, mask: Mask)
    requires AllItems(items) && SpelledBy(BranchNode(stack, mask), items)
    ensures BranchItems(items, 16) == Ok((stack, mask))
  {
    forall i | 0 <= i < |stack|
      ensures IsReference(stack[i])
    {
      var x := RankReached(mask, 16, i);
      assert ChildAt(stack, mask, x, items[x]);
    }
    hide IsItem, IsReference;
    BranchItemsOfSlots(stack, mask, items, 16);
    assert Lower(mask, 16) == mask && stack[..|stack|] == stack;
  }

  /** Every position of the stack belongs to a nibble of the mask. */
  lemma {:induction false} RankReached(mask: Mask, hi: nat, i: nat) returns (x: Nibble)
    requires hi <= 16 && i < Rank(mask, hi)
    ensures x < hi && x in mask && Rank(mask, x) == i
  {
    if hi - 1 in mask && Rank(mask, hi - 1) == i {
      x := hi - 1;
    } else {
      x := RankReached(mask, hi - 1, i);
    }
  }

  lemma {:induction false} BranchItemAt(items: seq<Bytes>, x: Nibble, hi: nat)
    requires x < hi <= 16 && hi <= |items| && BranchItems(items, hi).Ok?
    ensures var (stack, mask) := BranchItems(items, hi).value;
            if x in mask then ChildAt(stack, mask, x, items[x]) else items[x] == [0x80]
  {
    BranchItemsFacts(items, hi - 1);
    var (stack, mask) := BranchItems(items, hi - 1).value;
    var y: Nibble := hi - 1;
    RankInsert(mask, y, x);
    if x < hi - 1 {
      BranchItemAt(items, x, hi - 1);
    } else {
      RankAll(mask, y);
    }
  }

  lemma {:induction false} RankAll(mask: Mask, hi: nat)
    requires hi <= 16 && forall x | x in mask :: x < hi
    ensures Rank(mask, hi) == Rank(mask, 16)
  {
    RankFrom(mask, hi, 16);
  }

  lemma {:induction false} RankFrom(mask: Mask, lo: nat, hi: nat)
    requires lo <= hi <= 16 && forall x | x in mask :: x < lo
    ensures Rank(mask, hi) == Rank(mask, lo)
  {
    if lo < hi {
      RankFrom(mask, lo, hi - 1);
    }
  }

  // ----- Whole nodes -----

  /** A byte string decodes as a node exactly when it starts with the list of items that stands
      for the node, or with the empty string for the empty root. */
  lemma DecodesExactly(b: Bytes, n: TrieNode)
    requires |b| < USIZE_LIMIT
    ensures DecodeNode(b) == Ok(n) <==>
            || (n == EmptyRoot && b != [] && b[0] == 0x80)
            || exists items, tail :: b == EncodeList(items) + tail && AllItems(items) && SpelledBy(n, items)
  {
    if DecodeNode(b) == Ok(n) {
      var items, tail := DecodedItems(b, n);
    }
    if items, tail :| b == EncodeList(items) + tail && AllItems(items) && SpelledBy(n, items) {
      SpelledDecodes(items, tail, n);
    }
    if b != [] && b[0] == 0x80 {
      EmptyRootRoundTrip(b[1..]);
      assert [EMPTY_STRING_CODE] + b[1..] == b;
    }
  }

  lemma DecodedItems(b: Bytes, n: TrieNode) returns (items: seq<Bytes>, tail: Bytes)
    requires |b| < USIZE_LIMIT && DecodeNode(b) == Ok(n)
    ensures || (n == EmptyRoot && b != [] && b[0] == 0x80)
            || (b == EncodeList(items) + tail && AllItems(items) && SpelledBy(n, items))
  {
    hide DecodeHeader, EncodeHeader, NodeOfItems, SpelledBy, IsItem, SplitItems, DecodeNode;
    var h := NodeHeader(b, n);
    var payload := h.rest[..h.payloadLength];
    items, tail := [], h.rest[h.payloadLength..];
    if h.list {
      items := SplitItems(payload).value;
      SplitOnly(payload, items);
      ListStarts(b, h);
      HeaderReread(b, h.list, h.payloadLength, h.rest);
      assert h.rest == payload + tail;
      SmallItems(items, |b|);
      ItemsRead(items, n);
    } else {
      EmptyStarts(b, h);
    }
  }

  lemma NodeHeader(b: Bytes, n: TrieNode) returns (h: Header)
    requires DecodeNode(b) == Ok(n)
    ensures DecodeHeader(b) == Ok(h)
    ensures h.list ==> var r := SplitItems(h.rest[..h.payloadLength]); r.Ok? && NodeOfItems(r.value) == Ok(n)
    ensures !h.list ==> n == EmptyRoot && h.payloadLength == 0
  {
    hide DecodeHeader, SplitItems, NodeOfItems;
    h := DecodeHeader(b).value;
  }

  lemma ListStarts(b: Bytes, h: Header)
    requires DecodeHeader(b) == Ok(h) && h.list
    ensures b != [] && b[0] >= 0x80
  {
    hide DecodeLongHeader;
  }

  lemma EmptyStarts(b: Bytes, h: Header)
    requires DecodeHeader(b) == Ok(h) && !h.list && h.payloadLength == 0
    ensures b != [] && b[0] == 0x80
  {
    hide FromBigEndian;
  }

  lemma SmallItems(items: seq<Bytes>, size: nat)
    requires |Concat(items)| <= size
    ensures forall i | 0 <= i < |items| :: |items[i]| <= size
  {
    forall i | 0 <= i < |items|
      ensures |items[i]| <= size
    {
      ConcatHolds(items, i);
    }
  }

  lemma ItemsRead(items: seq<Bytes>, n: TrieNode)
    requires AllItems(items) && forall i | 0 <= i < |items| :: |items[i]| < USIZE_LIMIT
    ensures NodeOfItems(items) == Ok(n) <==> SpelledBy(n, items)
  {
    if |items| == 2 {
      hide NodeOfItems, SpelledBy, AllItems;
      ShortItemsRead(items, n);
    } else if |items| == 17 {
      hide NodeOfItems, SpelledBy, AllItems;
      BranchItemsRead(items, n);
    }
  }

  lemma SpelledDecodes(items: seq<Bytes>, tail: Bytes, n: TrieNode)
    requires AllItems(items) && SpelledBy(n, items) && |EncodeList(items) + tail| < USIZE_LIMIT
    ensures DecodeNode(EncodeList(items) + tail) == Ok(n)
  {
    ListLonger(items);
    SmallItems(items, |Concat(items)|);
    hide DecodeNode, NodeOfItems, SpelledBy, EncodeList, IsItem;
    ItemsRead(items, n);
    DecodeList(items, tail);
  }

  /** The encoding of a trie's node, item by item: the compact path in nibbles and the value or the
      child's reference, or the sixteen references in nibble order and the empty string. */
  lemma EncodedItems(t: Trie) returns (items: seq<Bytes>)
    requires Canonical(t) && !t.Stub? && !t.Empty?
    ensures Encode(t) == EncodeList(items)
    ensures t.Branch? ==>
              |items| == 17 && items[16] == [0x80] && forall x: Nibble :: items[x] == Reference(t.children[x])
    ensures !t.Branch? ==>
              && |items| == 2
              && items[1] == (if t.Leaf? then EncodeString(t.value) else Reference(t.child))
              && exists hp :: items[0] == EncodeString(hp) && Unpack(hp) ==
                              (if |t.path| % 2 == 0 then [if t.Leaf? then 2 else 0, 0] else [if t.Leaf? then 3 else 1])
                              + t.path
  {
    match t
    case Branch(ch) => items := seq(|ch|, i requires 0 <= i < |ch| => Reference(ch[i])) + [[EMPTY_STRING_CODE]];
    case Leaf(p, v) =>
      items := [EncodeString(HexPrefix(p, true)), EncodeString(v)];
      hide HexPrefix, EncodeString, Unpack;
      HexPrefixNibbles(p, true);
    case Ext(p, c) =>
      items := [EncodeString(HexPrefix(p, false)), Reference(c)];
      hide HexPrefix, EncodeString, Unpack;
      HexPrefixNibbles(p, false);
  }
}
