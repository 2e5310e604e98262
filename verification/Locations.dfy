/** The nodes of a trie by their paths: what the post-order visits, which branches are recorded
    and what their records say. */
module Locations {
  import opened Primitives
  import opened Masks
  import opened Tries
  import opened Traversal

  /** The node that stands exactly at path p, or Empty. */
  ghost function NodeAt(t: Trie, p: Nibbles): (n: Trie)
    decreases t
  {
    if p == [] then if t.Stub? then Empty else t
    else
      match t
      case Ext(q, c) => if q <= p then NodeAt(c, p[|q|..]) else Empty
      case Branch(ch) => if p[0] < |ch| then NodeAt(ch[p[0]], p[1..]) else Empty
      case _ => Empty
  }

  lemma NodeAtBranch(t: Trie, x: Nibble, p: Nibbles)
    requires t.Branch? && |t.children| == 16
    ensures NodeAt(t, [x] + p) == NodeAt(t.children[x], p)
  {
    assert ([x] + p)[1..] == p;
  }

  lemma NodeAtExt(t: Trie, p: Nibbles)
    requires t.Ext? && t.path != []
    ensures NodeAt(t, t.path + p) == NodeAt(t.child, p)
  {
    assert (t.path + p)[|t.path|..] == p;
  }

  /** The nodes below a node are the trie's nodes below its path. */
  lemma {:induction false} NodeBelow(t: Trie, p: Nibbles, q: Nibbles)
    requires Canonical(t) && !NodeAt(t, p).Empty?
    ensures NodeAt(t, p + q) == NodeAt(NodeAt(t, p), q)
    decreases t
  {
    if p == [] {
      assert p + q == q;
    } else {
      match t
      case Ext(short, c) =>
        assert (p + q)[|short|..] == p[|short|..] + q;
        NodeBelow(c, p[|short|..], q);
      case Branch(ch) =>
        assert (p + q)[1..] == p[1..] + q;
        NodeBelow(ch[p[0]], p[1..], q);
    }
  }

  // ----- The post-order visits every node once -----

  /** Whatever is visited stands at its path. */
  lemma {:induction false} VisitedStands(t: Trie, path: Nibbles, item: Placed)
    requires Canonical(t) && item in PostOrder(t, path)
    ensures path <= item.path && NodeAt(t, item.path[|path|..]) == item.node && !item.node.Empty?
    decreases t, 17
  {
    match t
    case Leaf(_, _) =>
    case Ext(q, c) =>
      if item in PostOrder(c, path + q) {
        VisitedStands(c, path + q, item);
        var p := item.path[|path + q|..];
        assert item.path[|path|..] == q + p;
        NodeAtExt(t, p);
      }
    case Branch(ch) =>
      if item in PostChildren(t, path, 16) {
        VisitedChild(t, path, item, 16);
      }
  }

  lemma {:induction false} VisitedChild(t: Trie, path: Nibbles, item: Placed, hi: nat)
    requires t.Branch? && Canonical(t) && hi <= 16 && item in PostChildren(t, path, hi)
    ensures path <= item.path && NodeAt(t, item.path[|path|..]) == item.node && !item.node.Empty?
    decreases t, hi
  {
    var x: Nibble := hi - 1;
    if item in PostChildren(t, path, x) {
      VisitedChild(t, path, item, x);
    } else {
      VisitedStands(t.children[x], path + [x], item);
      var p := item.path[|path| + 1..];
      assert item.path[|path|..] == [x] + p;
      NodeAtBranch(t, x, p);
    }
  }

  /** Whatever stands at a path is visited. */
  lemma {:induction false} StandsVisited(t: Trie, path: Nibbles, p: Nibbles)
    requires Canonical(t) && !NodeAt(t, p).Empty?
    ensures Placed(path + p, NodeAt(t, p)) in PostOrder(t, path)
    decreases t
  {
    if p == [] {
      assert path + p == path;
    } else {
      match t
      case Ext(q, c) =>
        StandsVisited(c, path + q, p[|q|..]);
        assert (path + q) + p[|q|..] == path + p;
      case Branch(ch) =>
        StandsVisited(ch[p[0]], path + [p[0]], p[1..]);
        assert (path + [p[0]]) + p[1..] == path + p;
        ChildVisited(t, path, p[0], 16, Placed(path + p, NodeAt(t, p)));
    }
  }

  lemma {:induction false} ChildVisited(t: Trie, path: Nibbles, x: Nibble, hi: nat, item: Placed)
    requires t.Branch? && x < hi <= |t.children| && hi <= 16
    requires item in PostOrder(t.children[x], path + [x])
    ensures item in PostChildren(t, path, hi)
  {
    if x < hi - 1 {
      ChildVisited(t, path, x, hi - 1, item);
    }
  }

  // ----- Records -----

  predicate Kept(item: Placed) {
    item.node.Branch? && |item.node.children| == 16 && TreeChild(item.node)
  }

  /** No two visits share a path. */
  ghost predicate OnePerPath(items: seq<Placed>) {
    forall a, b | a in items && b in items && a.path == b.path :: a == b
  }

  lemma {:induction false} RecordedExactly(items: seq<Placed>, p: Nibbles)
    requires OnePerPath(items)
    ensures p in RecordedAll(items) <==> exists a :: a in items && a.path == p && Kept(a)
    ensures forall a | a in items && a.path == p && Kept(a) :: RecordedAll(items)[p] == CompactOf(a.node, p)
  {
    hide Kept, CompactOf;
    if items != [] {
      var n := |items| - 1;
      assert forall a | a in items[..n] :: a in items;
      RecordedLast(items);
      hide Recorded;
      RecordedExactly(items[..n], p);
      assert forall a | a in items :: a in items[..n] || a == items[n];
    }
  }

  lemma RecordedLast(items: seq<Placed>)
    requires items != []
    ensures var n := |items| - 1; var before, item := RecordedAll(items[..n]), items[n];
            RecordedAll(items) == if Kept(item) then before[item.path := CompactOf(item.node, item.path)] else before
  {
    hide CompactOf, TreeChild;
  }

  lemma PostOrderOnePerPath(t: Trie, path: Nibbles)
    requires Canonical(t)
    ensures OnePerPath(PostOrder(t, path))
  {
    forall a, b | a in PostOrder(t, path) && b in PostOrder(t, path) && a.path == b.path
      ensures a == b
    {
      VisitedStands(t, path, a);
      VisitedStands(t, path, b);
    }
  }

  /** The records of a whole trie: exactly the branches with a branch child or with a child that
      leads to a recorded branch, each with its own masks and hashes. */
  lemma RecordsOfTrie(t: Trie, p: Nibbles)
    requires Canonical(t)
    ensures var r := RecordedAll(PostOrder(t, [])); var n := NodeAt(t, p);
            && (p in r <==> n.Branch? && TreeChild(n))
            && (p in r ==> |n.children| == 16 && r[p] == CompactOf(n, p))
  {
    hide PostOrder, NodeAt, CompactOf, TreeChild, RecordedAll, Canonical, OnePerPath;
    var n := NodeAt(t, p);
    var items := PostOrder(t, []);
    PostOrderOnePerPath(t, []);
    RecordedExactly(items, p);
    if n.Branch? {
      BranchesWide(t, p);
      StandsVisited(t, [], p);
      assert [] + p == p;
      assert Placed(p, n) in items;
    }
    forall a | a in items && a.path == p
      ensures a.node == n
    {
      VisitedAtRoot(t, a);
    }
  }

  lemma BranchesWide(t: Trie, p: Nibbles)
    requires Canonical(t) && NodeAt(t, p).Branch?
    ensures |NodeAt(t, p).children| == 16
  {
    NodeAtCanonical(t, p);
  }

  lemma VisitedAtRoot(t: Trie, item: Placed)
    requires Canonical(t) && item in PostOrder(t, [])
    ensures NodeAt(t, item.path) == item.node
  {
    VisitedStands(t, [], item);
    assert item.path[0..] == item.path;
  }

  lemma {:induction false} NodeAtCanonical(t: Trie, p: Nibbles)
    requires Canonical(t)
    ensures Canonical(NodeAt(t, p))
    decreases t
  {
    if p != [] {
      match t
      case Ext(q, c) => if q <= p { NodeAtCanonical(c, p[|q|..]); }
      case Branch(ch) => NodeAtCanonical(ch[p[0]], p[1..]);
      case _ =>
    }
  }

  // ----- Reading a record -----

  /** The rank of a nibble in the hash mask is the position of its child's hash. */
  lemma {:induction false} ChildHashAt(t: Trie, x: Nibble, hi: nat)
    requires t.Branch? && |t.children| == 16 && x < hi <= 16 && HashChild(t.children[x])
    ensures Rank(HashMask(t), x) < |ChildHashes(t, hi)|
    ensures ChildHashes(t, hi)[Rank(HashMask(t), x)] == RootHash(t.children[x])
  {
    RankMonotone(HashMask(t), x, hi);
    if x < hi - 1 {
      ChildHashAt(t, x, hi - 1);
    }
  }

  /** `hash_for_nibble`: the hash at the number of hash-mask bits below the nibble. */
  function HashForNibble(c: BranchNodeCompact, x: Nibble): (w: Word)
    requires Rank(c.hashMask, x) < |c.hashes|
  {
    c.hashes[Rank(c.hashMask, x)]
  }

  lemma HashForNibbleIsChild(t: Trie, p: Nibbles, x: Nibble)
    requires t.Branch? && |t.children| == 16 && x in CompactOf(t, p).hashMask
    ensures Rank(CompactOf(t, p).hashMask, x) < |CompactOf(t, p).hashes|
    ensures HashForNibble(CompactOf(t, p), x) == RootHash(t.children[x])
  {
    ChildHashAt(t, x, 16);
  }

  // ----- Nodes of the trie of a map -----

  /** A branch of the trie of m stands where the keys of m part. */
  lemma {:induction false} NodeAtIsAt(m: Entries, q: Nibbles, p: Nibbles)
    requires PrefixFree(m) && NodeAt(At(m, q), p).Branch?
    ensures NodeAt(At(m, q), p) == At(m, q + p)
    decreases At(m, q)
  {
    hide At, PrefixFree;
    var t := At(m, q);
    if p == [] {
      assert q + p == q;
    } else {
      match t
      case Ext(short, c) =>
        ExtLeadsTo(m, q);
        NodeAtIsAt(m, q + short, p[|short|..]);
        assert (q + short) + p[|short|..] == q + p;
      case Branch(ch) =>
        BranchIsBelow(m, q);
        assert ch[p[0]] == At(m, q + [p[0]]);
        NodeAtIsAt(m, q + [p[0]], p[1..]);
        assert (q + [p[0]]) + p[1..] == q + p;
    }
  }

  lemma NodeInTrie(m: Entries, p: Nibbles)
    requires PrefixFree(m) && NodeAt(TrieOf(m), p).Branch?
    ensures NodeAt(TrieOf(m), p) == At(m, p)
  {
    TrieOfAt(m);
    NodeAtIsAt(m, [], p);
    assert [] + p == p;
  }
}
