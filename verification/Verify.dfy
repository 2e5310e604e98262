/** Proof verification: walking a list of encoded nodes from the root towards a key. */
module Verify {
  import opened Primitives
  import opened Rlp
  import opened Masks
  import opened Tries
  import opened NodeCodec

  datatype VerifyError =
    | RootMismatch(gotRoot: Word, expectedRoot: Word)
    | ValueMismatch(path: Nibbles, got: Option<Bytes>, expected: Option<Bytes>)
    | UnexpectedEmptyRoot
    | RlpError(error: Error)

  /** What the walk has reached: the reference of the next node, or a leaf's value. */
  datatype NodeDecodingResult = Node(reference: Bytes) | Value(value: Bytes)
  {
    /** The walk compares results as plain bytes. */
    function Raw(): (b: Bytes) {
      match this
      case Node(r) => r
      case Value(v) => v
    }
  }

  /** Where processing a node led, or how it failed; `Panicked` is the source's `unreachable!`. */
  datatype Processed =
    | Reached(last: Option<NodeDecodingResult>, walked: Nibbles)
    | Failed(error: VerifyError)
    | Panicked

  // ----- Nodes shrink as they are taken apart -----

  function Longest(refs: seq<Bytes>): (n: nat)
    ensures forall i | 0 <= i < |refs| :: |refs[i]| <= n
  {
    if refs == [] then 0
    else
      var n, last := Longest(refs[..|refs| - 1]), |refs[|refs| - 1]|;
      if n < last then last else n
  }

  function Weight(n: TrieNode): (w: nat) {
    match n
    case BranchNode(stack, _) => 1 + Longest(stack)
    case ExtensionNode(_, child) => 1 + |child|
    case _ => 0
  }

  /** Every item leaves room for at least one byte of each other item. */
  lemma {:induction false} ConcatRoom(items: seq<Bytes>, i: nat)
    requires i < |items| && forall j | 0 <= j < |items| :: items[j] != []
    ensures |items[i]| + |items| - 1 <= |Concat(items)|
  {
    if i == 0 {
      ConcatAtLeast(items[1..]);
    } else {
      ConcatRoom(items[1..], i - 1);
    }
  }

  lemma {:induction false} ConcatAtLeast(items: seq<Bytes>)
    requires forall j | 0 <= j < |items| :: items[j] != []
    ensures |items| <= |Concat(items)|
  {
    if items != [] {
      ConcatAtLeast(items[1..]);
    }
  }

  /** The items of a decoded list, and the room they need. */
  lemma ItemsOf(b: Bytes) returns (items: seq<Bytes>)
    requires DecodeNode(b).Ok? && !DecodeNode(b).value.EmptyRoot?
    ensures DecodeNode(b) == NodeOfItems(items)
    ensures forall i | 0 <= i < |items| :: |items[i]| + |items| <= |b|
  {
    var h := DecodeHeader(b).value;
    var payload := h.rest[..h.payloadLength];
    items := SplitItems(payload).value;
    SplitOnly(payload, items);
    forall i | 0 <= i < |items|
      ensures |items[i]| + |items| <= |b|
    {
      ConcatRoom(items, i);
    }
  }

  lemma {:induction false} BranchItemsFacts(items: seq<Bytes>, hi: nat)
    requires hi <= |items| && hi <= 16 && BranchItems(items, hi).Ok?
    ensures var (stack, mask) := BranchItems(items, hi).value;
            && |stack| == Rank(mask, 16)
            && (forall x | x in mask :: x < hi)
            && (forall i | 0 <= i < |stack| :: stack[i] in items && |stack[i]| <= 33)
  {
    if hi > 0 {
      BranchItemsFacts(items, hi - 1);
      var (stack, mask) := BranchItems(items, hi - 1).value;
      var x: Nibble := hi - 1;
      RankInsert(mask, x, 16);
    } else {
      RankNone(16);
    }
  }

  lemma {:induction false} RankInsert(mask: Mask, x: Nibble, hi: nat)
    requires x !in mask && hi <= 16
    ensures Rank(mask + {x}, hi) == Rank(mask, hi) + if x < hi then 1 else 0
  {
    if hi > 0 {
      RankInsert(mask, x, hi - 1);
    }
  }

  lemma {:induction false} RankNone(hi: nat)
    requires hi <= 16
    ensures Rank({}, hi) == 0
  {
    if hi > 0 {
      RankNone(hi - 1);
    }
  }

  /** A decoded node holds as many references as its mask says, and they are shorter than it. */
  lemma DecodeShrinks(b: Bytes)
    requires DecodeNode(b).Ok?
    ensures Counted(DecodeNode(b).value) && Weight(DecodeNode(b).value) <= |b|
  {
    hide DecodeHeader, SplitItems, DecodeNode;
    var n := DecodeNode(b).value;
    if !n.EmptyRoot? {
      var items := ItemsOf(b);
      if n.BranchNode? {
        BranchItemsFacts(items, 16);
        BranchWeight(n.stack, |b| - 1);
      }
    }
  }

  lemma {:induction false} BranchWeight(refs: seq<Bytes>, n: nat)
    requires forall i | 0 <= i < |refs| :: |refs[i]| <= n
    ensures Longest(refs) <= n
  {
    if refs != [] {
      BranchWeight(refs[..|refs| - 1], n);
    }
  }

  // ----- Processing one node -----

  /** `process_trie_node`. */
  function ProcessNode(n: TrieNode, walked: Nibbles, key: Nibbles): (r: Processed)
    requires Counted(n)
    decreases Weight(n), 2
  {
    match n
    case BranchNode(_, _) => ProcessBranch(n, walked, key)
    case ExtensionNode(short, child) =>
      if |child| == 33 then Reached(Some(Node(child)), walked + short)
      else
        (match DecodeNode(child)
         case Err(e) => Failed(RlpError(e))
         case Ok(next) =>
           DecodeShrinks(child);
           ProcessNode(next, walked + short, key))
    case LeafNode(short, value) => Reached(Some(Value(value)), walked + short)
    case EmptyRoot => Failed(UnexpectedEmptyRoot)
  }

  /** `process_branch`: follows the key's next nibble, through children encoded in place. */
  function ProcessBranch(n: TrieNode, walked: Nibbles, key: Nibbles): (r: Processed)
    requires n.BranchNode? && Counted(n)
    decreases Weight(n), 0
  {
    if |key| <= |walked| || key[|walked|] !in n.stateMask then Reached(None, walked)
    else
      var next := key[|walked|];
      RankMonotone(n.stateMask, next, 16);
      ProcessChild(n.stack[Rank(n.stateMask, next)], walked + [next], key)
  }

  function ProcessChild(child: Bytes, walked: Nibbles, key: Nibbles): (r: Processed)
    decreases |child|, 1
  {
    if |child| == 33 then Reached(Some(Node(child)), walked)
    else
      match DecodeNode(child)
      case Err(e) => Failed(RlpError(e))
      case Ok(EmptyRoot) => Failed(UnexpectedEmptyRoot)
      case Ok(LeafNode(short, value)) => Reached(Some(Value(value)), walked + short)
      case Ok(BranchNode(stack, mask)) =>
        DecodeShrinks(child);
        ProcessBranch(BranchNode(stack, mask), walked, key)
      case Ok(ExtensionNode(short, below)) =>
        DecodeShrinks(child);
        match DecodeNode(below)
        case Err(e) => Failed(RlpError(e))
        case Ok(BranchNode(stack, mask)) =>
          DecodeShrinks(below);
          ProcessBranch(BranchNode(stack, mask), walked + short, key)
        case Ok(_) => Panicked
  }

  /** `process_branch` as the source writes it: a loop that steps through the sixteen nibbles and
      the stack side by side until it meets the key's next nibble. */
  method ProcessBranchLoop(n: TrieNode, walked: Nibbles, key: Nibbles) returns (r: Processed)
    requires n.BranchNode? && Counted(n)
    ensures r == ProcessBranch(n, walked, key)
  {
    if |walked| < |key| {
      var next := key[|walked|];
      var stackPtr := |n.stack| - Rank(n.stateMask, 16);
      for index := 0 to 16
        invariant stackPtr == Rank(n.stateMask, index)
        invariant next in n.stateMask ==> index <= next
      {
        if index in n.stateMask {
          RankMonotone(n.stateMask, index, 16);
          if index == next {
            return ProcessChild(n.stack[stackPtr], walked + [next], key);
          }
          stackPtr := stackPtr + 1;
        }
      }
    }
    r := Reached(None, walked);
  }

  // ----- The walk -----

  /** The state of a walk along a proof, or how the walk ended early. */
  datatype Walk =
    | Walking(last: Option<NodeDecodingResult>, walked: Nibbles)
    | Rejected(error: VerifyError)
    | Crashed

  function RawLast(last: Option<NodeDecodingResult>): (b: Option<Bytes>) {
    if last.None? then None else Some(last.value.Raw())
  }

  /** One proof node: it must be the one the last node refers to. */
  function WalkNode(last: Option<NodeDecodingResult>, walked: Nibbles, key: Nibbles, node: Bytes): (w: Walk) {
    if RawLast(last) != Some(FromRlp(node)) then Rejected(ValueMismatch(walked, Some(node), RawLast(last)))
    else
      match DecodeNode(node)
      case Err(e) => Rejected(RlpError(e))
      case Ok(n) =>
        DecodeShrinks(node);
        match ProcessNode(n, walked, key)
        case Reached(l, w) => Walking(l, w)
        case Failed(e) => Rejected(e)
        case Panicked => Crashed
  }

  function WalkProof(last: Option<NodeDecodingResult>, walked: Nibbles, key: Nibbles, proof: seq<Bytes>): (w: Walk)
    decreases |proof|
  {
    if proof == [] then Walking(last, walked)
    else
      match WalkNode(last, walked, key, proof[0])
      case Walking(l, w) => WalkProof(l, w, key, proof[1..])
      case end => end
  }

  datatype Verdict = Accepted | Refused(error: VerifyError) | Panic

  /** The result counts only when the walk ended exactly at the key. */
  function Conclude(w: Walk, key: Nibbles, expected: Option<Bytes>): (v: Verdict) {
    match w
    case Crashed => Panic
    case Rejected(e) => Refused(e)
    case Walking(last, walked) =>
      var got := if walked == key then RawLast(last) else None;
      if got == expected then Accepted else Refused(ValueMismatch(key, got, expected))
  }

  function VerifyProof(root: Word, key: Nibbles, expected: Option<Bytes>, proof: seq<Bytes>): (v: Verdict) {
    if proof == [] || proof[0] == [EMPTY_STRING_CODE] then
      if root != EMPTY_ROOT_HASH then Refused(RootMismatch(EMPTY_ROOT_HASH, root))
      else if expected.None? then Accepted
      else Refused(ValueMismatch(key, None, expected))
    else Conclude(WalkProof(Some(Node(WordRlp(root))), [], key, proof), key, expected)
  }

  /** `verify_proof`, as a loop over the proof. */
  method VerifyProofLoop(root: Word, key: Nibbles, expected: Option<Bytes>, proof: seq<Bytes>) returns (v: Verdict)
    ensures v == VerifyProof(root, key, expected, proof)
  {
    if proof == [] || proof[0] == [EMPTY_STRING_CODE] {
      if root != EMPTY_ROOT_HASH {
        return Refused(RootMismatch(EMPTY_ROOT_HASH, root));
      }
      return if expected.None? then Accepted else Refused(ValueMismatch(key, None, expected));
    }
    var last: Option<NodeDecodingResult>, walked: Nibbles := Some(Node(WordRlp(root))), [];
    var start := last;
    for i := 0 to |proof|
      invariant WalkProof(start, [], key, proof) == WalkProof(last, walked, key, proof[i..])
    {
      assert proof[i..][0] == proof[i] && proof[i..][1..] == proof[i + 1..];
      match WalkNode(last, walked, key, proof[i])
      case Walking(l, w) => last, walked := l, w;
      case Rejected(e) => return Refused(e);
      case Crashed => return Panic;
    }
    v := Conclude(Walking(last, walked), key, expected);
  }

  // ----- What fits in place -----

  /** A branch encoded in place holds no branch, and no extension to a branch, in place: by size
      alone, so the recursion through in-place children is at most one level deep below it. */
  lemma InPlaceBranchIsFlat(b: Bytes, x: Nibble)
    requires |b| < 32 && DecodeNode(b).Ok? && DecodeNode(b).value.BranchNode?
    requires x in DecodeNode(b).value.stateMask
    ensures var n := DecodeNode(b).value;
            && Counted(n) && Rank(n.stateMask, x) < |n.stack|
            && var child := DecodeNode(n.stack[Rank(n.stateMask, x)]);
               child.Ok? ==>
                 && !child.value.BranchNode?
                 && (child.value.ExtensionNode? ==>
                       !(DecodeNode(child.value.child).Ok? && DecodeNode(child.value.child).value.BranchNode?))
  {
    var n := DecodeNode(b).value;
    DecodeShrinks(b);
    RankMonotone(n.stateMask, x, 16);
    var r := n.stack[Rank(n.stateMask, x)];
    ChildRoom(b, r);
    hide DecodeNode;
    if DecodeNode(r).Ok? {
      BranchNeedsRoom(r);
      if DecodeNode(r).value.ExtensionNode? {
        DecodeShrinks(r);
        BranchNeedsRoom(DecodeNode(r).value.child);
      }
    }
  }

  lemma ChildRoom(b: Bytes, r: Bytes)
    requires DecodeNode(b).Ok? && DecodeNode(b).value.BranchNode? && r in DecodeNode(b).value.stack
    ensures |r| + 17 <= |b|
  {
    hide DecodeHeader, SplitItems, DecodeNode;
    var items := ItemsOf(b);
    BranchItemsFacts(items, 16);
  }

  lemma BranchNeedsRoom(b: Bytes)
    ensures DecodeNode(b).Ok? && DecodeNode(b).value.BranchNode? ==> |b| >= 18
  {
    hide DecodeHeader, SplitItems, DecodeNode;
    if DecodeNode(b).Ok? && DecodeNode(b).value.BranchNode? {
      var items := ItemsOf(b);
      assert |items| == 17;
      assert |items[0]| + 17 <= |b|;
      ItemNonempty(b, items);
    }
  }

  lemma ItemNonempty(b: Bytes, items: seq<Bytes>)
    requires |items| == 17 && NodeOfItems(items).Ok? && |items[16]| + 17 <= |b|
    ensures |b| >= 18
  {
  }
}
