/** The order in which a trie's nodes are finished, and the branch records made on the way. */
module Traversal {
  import opened Primitives
  import opened Tries
  import opened Masks

  /** A node together with the path at which it stands. */
  datatype Placed = Placed(path: Nibbles, node: Trie)

  // ----- Post-order -----

  /** The nodes of a trie at their paths, children before parents and in ascending nibble
      order.  A stub is not a node of its own: only its hash is known. */
  ghost function PostOrder(t: Trie, path: Nibbles): (r: seq<Placed>)
    decreases t, 17
  {
    match t
    case Empty => []
    case Stub(_, _) => []
    case Leaf(_, _) => [Placed(path, t)]
    case Ext(p, c) => PostOrder(c, path + p) + [Placed(path, t)]
    case Branch(ch) =>
      PostChildren(t, path, if |ch| < 16 then |ch| else 16) + [Placed(path, t)]
  }

  ghost function PostChildren(t: Trie, path: Nibbles, hi: nat): (r: seq<Placed>)
    requires t.Branch? && hi <= |t.children| && hi <= 16
    decreases t, hi
  {
    if hi == 0 then []
    else PostChildren(t, path, hi - 1) + PostOrder(t.children[hi - 1], path + [hi - 1])
  }

  /** The post-order of several subtries in turn. */
  ghost function Visits(items: seq<Placed>): (r: seq<Placed>) {
    if items == [] then []
    else
      var n := |items| - 1;
      Visits(items[..n]) + PostOrder(items[n].node, items[n].path)
  }

  lemma {:induction false} VisitsConcat(a: seq<Placed>, b: seq<Placed>)
    ensures Visits(a + b) == Visits(a) + Visits(b)
  {
    if b == [] {
      assert a + b == a;
    } else {
      var n := |b| - 1;
      var s := a + b;
      assert s[..|s| - 1] == a + b[..n] && s[|s| - 1] == b[n];
      VisitsConcat(a, b[..n]);
      Assoc(Visits(a), Visits(b[..n]), PostOrder(b[n].node, b[n].path));
    }
  }

  lemma Assoc<T>(a: seq<T>, b: seq<T>, c: seq<T>)
    ensures (a + b) + c == a + (b + c)
  {
  }

  lemma VisitsOne(item: Placed)
    ensures Visits([item]) == PostOrder(item.node, item.path)
  {
    assert [item][..0] == [];
  }

  function References(items: seq<Placed>): (r: seq<Bytes>)
    ensures |r| == |items| && forall i | 0 <= i < |r| :: r[i] == Reference(items[i].node)
  {
    seq(|items|, i requires 0 <= i < |items| => Reference(items[i].node))
  }

  lemma ReferencesConcat(a: seq<Placed>, b: seq<Placed>)
    ensures References(a + b) == References(a) + References(b)
  {
  }

  // ----- Branch records -----

  /** The child is a branch itself, so its parent can keep its hash. */
  predicate HashChild(t: Trie) {
    t.Branch? || t.Stub?
  }

  /** The child leads, directly or through an extension, to a branch kept in the database; a
      branch is kept when it has a branch child or leads to a kept one. */
  predicate TreeChild(t: Trie) {
    match t
    case Stub(_, stored) => stored
    case Ext(_, c) => TreeChild(c)
    case Branch(ch) => exists i | 0 <= i < |ch| :: HashChild(ch[i]) || TreeChild(ch[i])
    case _ => false
  }

  datatype BranchNodeCompact = BranchNodeCompact(
    stateMask: Mask,
    treeMask: Mask,
    hashMask: Mask,
    hashes: seq<Word>,
    rootHash: Option<Word>)

  function StateMask(t: Trie): (r: Mask)
    requires t.Branch? && |t.children| == 16
  {
    set x: Nibble | !t.children[x].Empty?
  }

  function HashMask(t: Trie): (r: Mask)
    requires t.Branch? && |t.children| == 16
  {
    set x: Nibble | HashChild(t.children[x])
  }

  function TreeMask(t: Trie): (r: Mask)
    requires t.Branch? && |t.children| == 16
  {
    set x: Nibble | TreeChild(t.children[x])
  }

  /** The hashes of the branch children below nibble hi, in ascending nibble order. */
  function ChildHashes(t: Trie, hi: nat): (r: seq<Word>)
    requires t.Branch? && |t.children| == 16 && hi <= 16
    ensures |r| == Rank(HashMask(t), hi)
  {
    if hi == 0 then []
    else ChildHashes(t, hi - 1) + if HashChild(t.children[hi - 1]) then [RootHash(t.children[hi - 1])] else []
  }

  /** The record of a kept branch. */
  function CompactOf(t: Trie, path: Nibbles): (r: BranchNodeCompact)
    requires t.Branch? && |t.children| == 16
  {
    BranchNodeCompact(StateMask(t), TreeMask(t), HashMask(t), ChildHashes(t, 16),
                      if path == [] then Some(RootHash(t)) else None)
  }

  type Updates = map<Nibbles, BranchNodeCompact>

  /** Records a finished node: only kept branches leave a record. */
  function Recorded(updates: Updates, item: Placed): (r: Updates)
  {
    if item.node.Branch? && |item.node.children| == 16 && TreeChild(item.node) then
      updates[item.path := CompactOf(item.node, item.path)]
    else updates
  }

  function RecordedAll(items: seq<Placed>): (r: Updates) {
    if items == [] then map[]
    else Recorded(RecordedAll(items[..|items| - 1]), items[|items| - 1])
  }
}
