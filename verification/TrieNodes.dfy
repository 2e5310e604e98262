/** The nodes of a specification trie in the codec's terms. */
module TrieNodes {
  import opened Primitives
  import opened Rlp
  import opened HexPrefixes
  import opened Masks
  import opened Tries
  import opened Traversal
  import opened Nodes
  import opened NodeCodec

  /** The references of the children below nibble hi, in ascending order. */
  ghost function ChildReferences(t: Trie, hi: nat): (r: seq<Bytes>)
    requires t.Branch? && |t.children| == 16 && hi <= 16
    ensures |r| == Rank(StateMask(t), hi)
  {
    if hi == 0 then []
    else ChildReferences(t, hi - 1) + if t.children[hi - 1].Empty? then [] else [Reference(t.children[hi - 1])]
  }

  /** The decoded form of a trie's root node. */
  ghost function NodeOf(t: Trie): (n: TrieNode)
    requires t.Branch? ==> |t.children| == 16
  {
    match t
    case Leaf(p, v) => LeafNode(p, v)
    case Ext(p, c) => ExtensionNode(p, Reference(c))
    case Branch(ch) => BranchNode(ChildReferences(t, 16), StateMask(t))
    case _ => EmptyRoot
  }

  lemma {:induction false} ChildReferenceAt(t: Trie, x: Nibble, hi: nat)
    requires t.Branch? && |t.children| == 16 && x < hi <= 16 && !t.children[x].Empty?
    ensures Rank(StateMask(t), x) < Rank(StateMask(t), hi)
    ensures ChildReferences(t, hi)[Rank(StateMask(t), x)] == Reference(t.children[x])
  {
    hide Reference;
    RankMonotone(StateMask(t), x, hi);
    if x < hi - 1 {
      ChildReferenceAt(t, x, hi - 1);
    }
  }

  lemma {:induction false} ChildReferenceOf(t: Trie, hi: nat, i: nat) returns (x: Nibble)
    requires t.Branch? && |t.children| == 16 && hi <= 16 && i < |ChildReferences(t, hi)|
    ensures x < hi && !t.children[x].Empty? && ChildReferences(t, hi)[i] == Reference(t.children[x])
  {
    hide Reference;
    if i < |ChildReferences(t, hi - 1)| {
      x := ChildReferenceOf(t, hi - 1, i);
    } else {
      x := hi - 1;
    }
  }

  /** The codec's encoder and the specification's agree. */
  lemma EncodeAgrees(t: Trie)
    requires !t.Stub? && (t.Branch? ==> |t.children| == 16)
    ensures Counted(NodeOf(t)) && EncodeNode(NodeOf(t)) == Encode(t)
  {
    if t.Branch? {
      var ch := t.children;
      var refs, mask := ChildReferences(t, 16), StateMask(t);
      forall x: Nibble
        ensures Slot(refs, mask, x) == Reference(ch[x])
      {
        SlotIsChild(t, x);
      }
      assert Slots(refs, mask, 16) == seq(|ch|, i requires 0 <= i < |ch| => Reference(ch[i]));
    }
  }

  lemma SlotIsChild(t: Trie, x: Nibble)
    requires t.Branch? && |t.children| == 16
    ensures Slot(ChildReferences(t, 16), StateMask(t), x) == Reference(t.children[x])
  {
    if !t.children[x].Empty? {
      ChildReferenceAt(t, x, 16);
    }
  }

  // ----- References -----

  lemma WordRlpIsItem(w: Word)
    ensures IsItem(WordRlp(w)) && |WordRlp(w)| == 33
  {
    assert WordRlp(w)[1..] == w;
  }

  /** The first byte of a node's encoding is that of a list. */
  lemma ListStart(items: seq<Bytes>)
    requires |EncodeList(items)| < 32
    ensures EncodeList(items)[0] >= 0xC0 && IsItem(EncodeList(items))
  {
    ListLonger(items);
    ListRoundTrip(items, []);
  }

  /** Every child reference can be cut out of its parent again. */
  lemma ReferenceOk(c: Trie)
    requires !c.Empty?
    ensures IsReference(Reference(c))
    ensures |Reference(c)| == 33 <==> c.Stub? || |Encode(c)| >= 32
    ensures |Reference(c)| != 33 ==> Reference(c) == Encode(c)
    ensures !IsBareByte(Reference(c))
  {
    if c.Stub? {
      WordRlpIsItem(c.hash);
    } else if |Encode(c)| >= 32 {
      WordRlpIsItem(Keccak(Encode(c)));
    } else {
      match c
      case Leaf(p, v) => ListStart([EncodeString(HexPrefix(p, true)), EncodeString(v)]);
      case Ext(p, d) => ListStart([EncodeString(HexPrefix(p, false)), Reference(d)]);
      case Branch(ch) =>
        ListStart(seq(|ch|, i requires 0 <= i < |ch| => Reference(ch[i])) + [[EMPTY_STRING_CODE]]);
    }
  }

  /** Every node of the trie has an encoding whose length fits a `usize`. */
  ghost predicate Fits(t: Trie) {
    && |Encode(t)| < USIZE_LIMIT
    && match t
       case Ext(_, c) => Fits(c)
       case Branch(ch) => forall i | 0 <= i < |ch| :: Fits(ch[i])
       case _ => true
  }

  lemma NodeOfWellFormed(t: Trie)
    requires !t.Stub? && Canonical(t) && |Encode(t)| < USIZE_LIMIT
    ensures WellFormed(NodeOf(t))
  {
    EncodeAgrees(t);
    hide Encode, IsReference, Slots;
    match t
    case Ext(_, c) => ReferenceOk(c); ReferenceItem(Reference(c));
    case Branch(ch) =>
      var refs := ChildReferences(t, 16);
      forall i | 0 <= i < |refs|
        ensures IsReference(refs[i])
      {
        var x := ChildReferenceOf(t, 16, i);
        ReferenceOk(ch[x]);
      }
    case _ =>
  }

  lemma ReferenceItem(r: Bytes)
    requires IsReference(r)
    ensures IsItem(r) && |r| <= 33
  {
  }

  /** An encoded trie node decodes as that node. */
  lemma DecodeTrie(t: Trie)
    requires !t.Stub? && Canonical(t) && |Encode(t)| < USIZE_LIMIT
    ensures DecodeNode(Encode(t)) == Ok(NodeOf(t)) && Counted(NodeOf(t))
  {
    hide WellFormed, DecodeNode, Encode, NodeOf;
    NodeOfWellFormed(t);
    EncodeAgrees(t);
    NodeRoundTrip(NodeOf(t), []);
    assert Encode(t) + [] == Encode(t);
  }

  /** Both decoders read every branch of a trie alike: its children are never bare bytes. */
  lemma BranchDecodersOnTries(t: Trie)
    requires t.Branch? && Canonical(t) && |Encode(t)| < USIZE_LIMIT
    ensures DecodeBranch(Encode(t)) == DecodeNode(Encode(t)) == Ok(NodeOf(t))
  {
    DecodeTrie(t);
    NodeOfWellFormed(t);
    EncodeAgrees(t);
    hide Encode, WellFormed, DecodeNode, DecodeBranch, IsBareByte, EncodeNode, Reference;
    var n := NodeOf(t);
    forall i | 0 <= i < |n.stack|
      ensures !IsBareByte(n.stack[i])
    {
      var x := ChildReferenceOf(t, 16, i);
      ReferenceOk(t.children[x]);
    }
    BranchDecoderAgrees(n, []);
    assert Encode(t) + [] == Encode(t);
  }

  /** A branch that the two decoders read differently: its one child is the byte 5. */
  lemma BareByteDisagrees()
    ensures var n := BranchNode([[5]], {0});
            Counted(n) && DecodeBranch(EncodeNode(n)) != DecodeNode(EncodeNode(n))
  {
    var n := BranchNode([[5]], {0});
    SeventeenBytes();
    FiveIsReference();
    hide Slots, DecodeBranch, DecodeNode, EncodeNode, IsReference, Rank;
    assert WellFormed(n);
    hide WellFormed;
    BranchDecoderAgrees(n, []);
    assert IsBareByte(n.stack[0]);
    assert EncodeNode(n) + [] == EncodeNode(n);
  }

  lemma FiveIsReference()
    ensures IsReference([5])
  {
  }

  lemma {:induction false} RankOne(hi: nat)
    requires 1 <= hi <= 16
    ensures Rank({0}, hi) == 1
  {
    if hi > 1 {
      RankOne(hi - 1);
    }
  }

  lemma SeventeenBytes()
    ensures Rank({0}, 16) == 1
    ensures |EncodeNode(BranchNode([[5]], {0}))| < 64
  {
    RankOne(16);
    var items := Slots([[5]], {0}, 16) + [[EMPTY_STRING_CODE]];
    OneByteEach(items);
  }

  lemma {:induction false} OneByteEach(items: seq<Bytes>)
    requires forall i | 0 <= i < |items| :: |items[i]| == 1
    ensures |Concat(items)| == |items|
  {
    if items != [] {
      OneByteEach(items[1..]);
    }
  }
}
