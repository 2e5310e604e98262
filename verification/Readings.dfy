/** Values that read like nodes.  The verifier compares the next node of a proof with the bytes it
    reached last, be they a reference or a value, so a value can be taken for a reference. */
module Readings {
  import opened Primitives
  import opened Rlp
  import opened Masks
  import opened Tries
  import opened NodeCodec
  import opened Lookups
  import opened Verify

  /** Processing the node reaches something, whatever the key: it is a leaf or a branch, or an
      extension that leads to one or to a reference. */
  predicate Opens(n: TrieNode)
    requires Counted(n)
    decreases Weight(n)
  {
    match n
    case BranchNode(_, _) => true
    case LeafNode(_, _) => true
    case EmptyRoot => false
    case ExtensionNode(_, child) =>
      |child| == 33 || (DecodeNode(child).Ok? && (DecodeShrinks(child); Opens(DecodeNode(child).value)))
  }

  /** A node that does not open fails for every key. */
  lemma {:induction false} ClosedFails(n: TrieNode, w: Nibbles, key: Nibbles)
    requires Counted(n) && !Opens(n)
    ensures ProcessNode(n, w, key).Failed?
    decreases Weight(n)
  {
    hide DecodeNode;
    match n
    case ExtensionNode(short, child) =>
      if DecodeNode(child).Ok? {
        DecodeShrinks(child);
        ClosedFails(DecodeNode(child).value, w + short, key);
      }
    case EmptyRoot =>
  }

  /** A node that opens reaches something when the walk is at the key or beyond it. */
  lemma {:induction false} OpenReaches(n: TrieNode, w: Nibbles, key: Nibbles)
    requires Counted(n) && Opens(n) && |key| <= |w|
    ensures ProcessNode(n, w, key).Reached? && w <= ProcessNode(n, w, key).walked
    decreases Weight(n)
  {
    hide DecodeNode;
    match n
    case ExtensionNode(short, child) =>
      if |child| != 33 {
        DecodeShrinks(child);
        OpenReaches(DecodeNode(child).value, w + short, key);
      }
    case _ =>
  }

  /** b is the encoding of a node that opens. */
  predicate ReadsAsNode(b: Bytes) {
    DecodeNode(b).Ok? && (DecodeShrinks(b); Opens(DecodeNode(b).value))
  }

  /** A value that cannot be taken for a reference: it is not the reference by a hash, and it is not
      a node short enough to be its own reference. */
  predicate Plain(v: Bytes) {
    && !IsHashReference(v)
    && !(|v| < 32 && ReadsAsNode(v))
  }

  predicate IsHashReference(v: Bytes) {
    |v| == 33 && v[0] == EMPTY_STRING_CODE + 32
  }

  /** A plain value is followed by no node. */
  lemma PlainUnread(v: Bytes, b: Bytes)
    requires Plain(v) && v == FromRlp(b)
    ensures !ReadsAsNode(b)
  {
    hide ReadsAsNode;
  }

  ghost predicate PlainValues(m: Entries)
    requires LeavesOnly(m)
  {
    forall k | k in m :: Plain(m[k].bytes)
  }

  // ----- What a value read as a node leads to -----

  /** A decoded leaf's value is shorter than the leaf. */
  lemma LeafValueShorter(b: Bytes)
    requires DecodeNode(b).Ok? && DecodeNode(b).value.LeafNode?
    ensures |DecodeNode(b).value.value| < |b|
  {
    hide DecodeNode, SplitItems, DecodeHeader;
    var items := ItemsOf(b);
  }

  /** Whatever processing reaches is shorter than the node it was reached from, and a reference has
      33 bytes. */
  ghost predicate Sized(r: Processed, n: nat) {
    r.Reached? && r.last.Some? ==> |r.last.value.Raw()| <= n && (r.last.value.Node? ==> |r.last.value.Raw()| == 33)
  }

  lemma {:induction false} ResultSize(b: Bytes, w: Nibbles, key: Nibbles)
    requires DecodeNode(b).Ok?
    ensures Counted(DecodeNode(b).value) && Sized(ProcessNode(DecodeNode(b).value, w, key), |b| - 1)
    decreases |b|, 0
  {
    hide DecodeNode;
    DecodeShrinks(b);
    match DecodeNode(b).value
    case LeafNode(_, _) => LeafValueShorter(b);
    case ExtensionNode(short, child) =>
      if |child| != 33 && DecodeNode(child).Ok? {
        ResultSize(child, w + short, key);
      }
    case BranchNode(stack, mask) =>
      if |w| < |key| && key[|w|] in mask {
        RankMonotone(mask, key[|w|], 16);
        ChildResultSize(stack[Rank(mask, key[|w|])], w + [key[|w|]], key);
      }
    case EmptyRoot =>
  }

  lemma {:induction false} ChildResultSize(c: Bytes, w: Nibbles, key: Nibbles)
    ensures Sized(ProcessChild(c, w, key), |c|)
    decreases |c|, 1
  {
    hide DecodeNode;
    if |c| != 33 && DecodeNode(c).Ok? {
      DecodeShrinks(c);
      match DecodeNode(c).value
      case LeafNode(_, _) => LeafValueShorter(c);
      case BranchNode(_, _) => ResultSize(c, w, key);
      case ExtensionNode(short, below) =>
        if DecodeNode(below).Ok? {
          ResultSize(below, w + short, key);
        }
      case EmptyRoot =>
    }
  }
}
