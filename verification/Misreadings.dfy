/** Tries of one key of 60 to 64 nibbles whose value is the reference of some node: the verifier goes
    on from the value into that node.  No walk or query here is longer than 64 nibbles. */
module Misreadings {
  import opened Primitives
  import opened Rlp
  import opened HexPrefixes
  import opened Masks
  import opened Tries
  import opened Nodes
  import opened NodeCodec
  import opened TrieNodes
  import opened Lookups
  import opened Verify
  import opened VerifySound
  import opened VerifyComplete
  import opened Panics

  /** The trie of one key, with the reference of b as its value. */
  ghost function Holder(key: Nibbles, b: Bytes): (t: Trie) {
    Leaf(key, FromRlp(b))
  }

  lemma HolderProper(key: Nibbles, b: Bytes)
    requires 60 <= |key| <= 64
    ensures Proper(Holder(key, b)) && |Encode(Holder(key, b))| >= 32
    ensures Lookup(Holder(key, b), [], key) == Some(FromRlp(b))
  {
    var v := FromRlp(b);
    var path := HexPrefix(key, true);
    HexPrefixShape(key, true);
    ConcatTwo(EncodeString(path), EncodeString(v));
    assert 32 <= |EncodeString(path)| <= 34 && |EncodeString(v)| <= 34;
    hide EncodeString, HexPrefix, FromRlp;
    SmallHeader(|EncodeString(path)| + |EncodeString(v)|);
    assert [] + key == key;
  }

  lemma SmallHeader(n: nat)
    requires n < 128
    ensures |EncodeHeader(true, n)| <= 2
  {
    if n >= 56 {
      assert BigEndian(n / 256) == [];
    }
  }

  /** After the trie's own node, the walk compares the next node with the value. */
  lemma IntoValue(key: Nibbles, b: Bytes, target: Nibbles)
    requires 60 <= |key| <= 64
    ensures var t := Holder(key, b);
            WalkProof(Some(Node(WordRlp(RootHash(t)))), [], target, [Encode(t), b]) ==
            WalkNode(Some(Value(FromRlp(b))), key, target, b)
    ensures Encode(Holder(key, b)) != [EMPTY_STRING_CODE]
  {
    var t := Holder(key, b);
    HolderProper(key, b);
    NotEmptyString(t);
    OwnNode(t, [], target);
    assert Reference(t) == WordRlp(RootHash(t));
    assert [] + key == key;
    var proof := [Encode(t), b];
    hide Encode, Reference, RootHash, WalkNode, Proper, FromRlp;
    WalkCons(Some(Node(WordRlp(RootHash(t)))), [], target, proof);
    OneNode(Some(Value(FromRlp(b))), key, target, proof[1..]);
  }

  lemma OneNode(last: Option<NodeDecodingResult>, w: Nibbles, key: Nibbles, proof: seq<Bytes>)
    requires |proof| == 1
    ensures WalkProof(last, w, key, proof) == WalkNode(last, w, key, proof[0])
  {
    hide WalkNode;
    assert proof[1..] == [];
  }

  /** Going on from the reference of a leaf yields the leaf's value at the end of its path. */
  lemma IntoLeaf(key: Nibbles, target: Nibbles, inner: Trie)
    requires inner.Leaf? && |Encode(inner)| < USIZE_LIMIT
    ensures WalkNode(Some(Value(FromRlp(Encode(inner)))), key, target, Encode(inner)) ==
            Walking(Some(Value(inner.value)), key + inner.path)
  {
    DecodeTrie(inner);
    hide Encode, DecodeNode, FromRlp;
  }

  /** The value is the reference of a leaf with an empty path: the leaf's value is accepted as the
      key's, though the trie holds the reference. */
  lemma InnerValueAccepted(key: Nibbles, x: Bytes)
    requires 60 <= |key| <= 64 && |Encode(Leaf([], x))| < USIZE_LIMIT
    ensures var inner := Leaf([], x); var t := Holder(key, Encode(inner));
            && Proper(t) && Lookup(t, [], key) == Some(Reference(inner))
            && VerifyProof(RootHash(t), key, Some(x), [Encode(t), Encode(inner)]) == Accepted
            && (|Encode(inner)| < 32 ==> Lookup(t, [], key) != Some(x))
  {
    var inner := Leaf([], x);
    InnerLonger(x);
    hide Encode, Proper, RootHash, WalkProof, WalkNode, Holder, Lookup;
    HolderProper(key, Encode(inner));
    IntoValue(key, Encode(inner), key);
    IntoLeaf(key, key, inner);
    assert key + [] == key;
  }

  lemma InnerLonger(x: Bytes)
    ensures |x| < |Encode(Leaf([], x))|
  {
    var a := EncodeString(HexPrefix([], true));
    ConcatTwo(a, EncodeString(x));
    ListLonger([a, EncodeString(x)]);
    StringLonger(x);
  }

  /** The value is the reference of a branch, short or long: at the end of the key the branch has no
      child to follow, so the key is accepted as absent, though the trie holds it, and the walk does
      not stop at a reference. */
  lemma InnerAbsenceAccepted(key: Nibbles, n: TrieNode)
    requires 60 <= |key| <= 64 && n.BranchNode? && WellFormed(n)
    ensures var b := EncodeNode(n); var t := Holder(key, b);
            && Proper(t) && Lookup(t, [], key) == Some(FromRlp(b))
            && WalkProof(Some(Node(WordRlp(RootHash(t)))), [], key, [Encode(t), b]) == Walking(None, key)
            && VerifyProof(RootHash(t), key, None, [Encode(t), b]) == Accepted
            && !Inconclusive(RootHash(t), key, [Encode(t), b])
  {
    var b := EncodeNode(n);
    IntoBranch(key, n);
    hide Encode, EncodeNode, Proper, RootHash, WalkProof, WalkNode, Holder, Lookup, WellFormed;
    HolderProper(key, b);
    IntoValue(key, b, key);
  }

  /** A walk that has used up the key stops in a branch. */
  lemma IntoBranch(key: Nibbles, n: TrieNode)
    requires n.BranchNode? && WellFormed(n)
    ensures WalkNode(Some(Value(FromRlp(EncodeNode(n)))), key, key, EncodeNode(n)) == Walking(None, key)
  {
    NodeRoundTrip(n, []);
    assert EncodeNode(n) + [] == EncodeNode(n);
    hide EncodeNode, DecodeNode, FromRlp, WellFormed;
  }

  lemma EmptyBranchBytes()
    ensures WellFormed(BranchNode([], {})) && |EncodeNode(BranchNode([], {}))| == 18
  {
    RankNone(16);
    var items := Slots([], {}, 16) + [[EMPTY_STRING_CODE]];
    OneByteEach(items);
    assert |Concat(items)| == 17;
    hide Slots, Rank;
  }

  /** A branch without children, of 18 bytes, is such a value: it is its own reference. */
  lemma ShortAbsenceAccepted(key: Nibbles)
    requires 60 <= |key| <= 64
    ensures Counted(BranchNode([], {}))
    ensures var b := EncodeNode(BranchNode([], {})); var t := Leaf(key, b);
            && |b| == 18 && Proper(t) && Lookup(t, [], key) == Some(b)
            && VerifyProof(RootHash(t), key, None, [Encode(t), b]) == Accepted
            && !Inconclusive(RootHash(t), key, [Encode(t), b])
  {
    EmptyBranchBytes();
    hide Encode, EncodeNode, Proper, RootHash, WalkProof, Lookup;
    InnerAbsenceAccepted(key, BranchNode([], {}));
  }

  // ----- A node that no trie has -----

  /** A leaf, an extension to it, and a branch that holds the extension in place. */
  const LEAF: Bytes := [0xC2, 0x32, 5]
  const EXTENSION: Bytes := [0xC4, 0x11, 0xC2, 0x32, 5]

  ghost function OddBranch(): (n: TrieNode) {
    BranchNode([EXTENSION], {0})
  }

  lemma LeafBytes()
    ensures DecodeNode(LEAF) == Ok(LeafNode([2], [5])) && IsItem(LEAF)
  {
    LeafEncoded();
    LeafIsItem();
    hide DecodeNode, EncodeNode, IsItem;
    NodeRoundTrip(LeafNode([2], [5]), []);
    assert LEAF + [] == LEAF;
  }

  lemma LeafEncoded()
    ensures EncodeNode(LeafNode([2], [5])) == LEAF
  {
    var p: Nibbles := [2];
    assert p[1..] == [];
    assert HexPrefix(p, true) == [0x32];
    ConcatTwo([0x32], [5]);
    assert EncodeString([0x32]) == [0x32] && EncodeString([5]) == [5];
  }

  lemma LeafIsItem()
    ensures IsItem(LEAF)
  {
  }

  lemma ExtensionBytes()
    ensures DecodeNode(EXTENSION) == Ok(ExtensionNode([1], LEAF)) && IsReference(EXTENSION)
  {
    ExtensionEncoded();
    LeafBytes();
    ExtensionIsReference();
    hide DecodeNode, EncodeNode, IsItem, IsReference;
    NodeRoundTrip(ExtensionNode([1], LEAF), []);
    assert EXTENSION + [] == EXTENSION;
  }

  lemma ExtensionEncoded()
    ensures EncodeNode(ExtensionNode([1], LEAF)) == EXTENSION
  {
    var p: Nibbles := [1];
    assert p[1..] == [];
    assert HexPrefix(p, false) == [0x11];
    ConcatTwo([0x11], LEAF);
    assert EncodeString([0x11]) == [0x11];
  }

  lemma ExtensionIsReference()
    ensures IsReference(EXTENSION)
  {
  }

  lemma BranchBytes()
    ensures Counted(OddBranch()) && |EncodeNode(OddBranch())| < 32
    ensures DecodeNode(EncodeNode(OddBranch())) == Ok(OddBranch())
  {
    BranchEncoded();
    ExtensionIsReference();
    hide DecodeNode, EncodeNode, IsReference, Rank;
    var n := OddBranch();
    NodeRoundTrip(n, []);
    assert EncodeNode(n) + [] == EncodeNode(n);
  }

  lemma BranchEncoded()
    ensures Counted(OddBranch()) && |EncodeNode(OddBranch())| < 32
  {
    RankOne(16);
    var items := Slots([EXTENSION], {0}, 16) + [[EMPTY_STRING_CODE]];
    assert items[0] == EXTENSION;
    OneByteEach(items[1..]);
    assert |Concat(items)| == 5 + 16;
    hide Slots, Rank;
  }

  /** The value is a branch that holds an extension to a leaf: a query that extends the trie's key
      by one nibble into the branch makes the verifier reach its `unreachable!` arm, whatever is
      expected.  The walk is then two nibbles longer than the key. */
  lemma OddBranchPanics(key: Nibbles, expected: Option<Bytes>)
    requires 60 <= |key| <= 62
    ensures Counted(OddBranch())
    ensures var b := EncodeNode(OddBranch()); var t := Holder(key, b);
            Proper(t) && VerifyProof(RootHash(t), key + [0], expected, [Encode(t), b]) == Panic
  {
    BranchBytes();
    var b := EncodeNode(OddBranch());
    hide Encode, EncodeNode, Proper, RootHash, Holder, DecodeNode, WalkProof;
    HolderProper(key, b);
    IntoValue(key, b, key + [0]);
    OddBranchStep(key, b);
  }

  lemma OddBranchStep(key: Nibbles, b: Bytes)
    requires Counted(OddBranch()) && DecodeNode(b) == Ok(OddBranch())
    ensures WalkNode(Some(Value(FromRlp(b))), key, key + [0], b) == Crashed
  {
    ExtensionBytes();
    LeafBytes();
    hide DecodeNode, FromRlp;
    var n := OddBranch();
    assert Rank({0}, 0) == 0;
    assert ProcessChild(EXTENSION, key + [0], key + [0]) == Panicked;
    assert ProcessBranch(n, key, key + [0]) == Panicked;
  }

  /** With a key of 64 nibbles no query of at most 64 does, whatever the value and the proof. */
  lemma HolderNeverPanics(key: Nibbles, b: Bytes, query: Nibbles, expected: Option<Bytes>, proof: seq<Bytes>)
    requires |key| == 64 && |query| <= 64 && Clashless(Holder(key, b), proof)
    ensures VerifyProof(RootHash(Holder(key, b)), query, expected, proof) != Panic
  {
    HolderProper(key, b);
    assert [] + key == key;
    hide Encode, Proper, RootHash, VerifyProof;
    DeepNeverPanics(Holder(key, b), query, expected, proof);
  }
}
