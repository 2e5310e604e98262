/** A root hash determines the map behind it, as long as no two nodes involved share a hash. */
module RootInjective {
  import opened Primitives
  import opened Tries
  import opened Traversal
  import opened NodeCodec
  import opened TrieNodes
  import opened Lookups
  import opened VerifySound

  /** No node of a has the hash of a node of b with another encoding. */
  ghost predicate Distinct(a: Trie, b: Trie) {
    && NoClash(b, Encode(a))
    && match a
       case Ext(_, c) => Distinct(c, b)
       case Branch(ch) => forall i | 0 <= i < |ch| :: Distinct(ch[i], b)
       case _ => true
  }

  /** d is the child of an extension or one of the children of a branch. */
  predicate IsChild(d: Trie, b: Trie) {
    (b.Ext? && d == b.child) || (b.Branch? && d in b.children)
  }

  lemma {:induction false} DistinctChild(a: Trie, b: Trie, d: Trie)
    requires Distinct(a, b) && IsChild(d, b)
    ensures Distinct(a, d)
    decreases a
  {
    hide Encode;
    NoClashChild(b, d, Encode(a));
    match a
    case Ext(_, c) => DistinctChild(c, b, d);
    case Branch(ch) =>
      forall i | 0 <= i < |ch|
        ensures Distinct(ch[i], d)
      {
        DistinctChild(ch[i], b, d);
      }
    case _ =>
  }

  lemma NoClashChild(b: Trie, d: Trie, e: Bytes)
    requires NoClash(b, e) && IsChild(d, b)
    ensures NoClash(d, e)
  {
    hide Encode;
  }

  ghost predicate Sound(t: Trie) {
    Canonical(t) && Fits(t) && Whole(t)
  }

  /** References are injective: a raw one is shorter than a hashed one. */
  lemma ReferenceInjective(c: Trie, d: Trie)
    requires Sound(c) && Sound(d) && NoClash(d, Encode(c)) && Reference(c) == Reference(d)
    ensures Encode(c) == Encode(d)
  {
    if |Encode(c)| >= 32 && |Encode(d)| >= 32 {
      assert Reference(c)[1..] == Keccak(Encode(c)) && Reference(d)[1..] == Keccak(Encode(d));
    }
  }

  /** Equal encodings come from equal tries. */
  lemma {:induction false} EncodeInjective(a: Trie, b: Trie)
    requires Sound(a) && Sound(b) && Distinct(a, b) && Encode(a) == Encode(b)
    ensures a == b
    decreases a
  {
    DecodeTrie(a);
    DecodeTrie(b);
    assert NodeOf(a) == NodeOf(b);
    hide DecodeNode, Encode;
    match a
    case Empty => NodeKind(a, b);
    case Leaf(_, _) => NodeKind(a, b);
    case Ext(p, c) =>
      NodeKind(a, b);
      SameChild(a, b, c, b.child);
      EncodeInjective(c, b.child);
    case Branch(ch) =>
      NodeKind(a, b);
      forall x: Nibble
        ensures ch[x] == b.children[x]
      {
        SameReferences(a, b, x);
        SameChild(a, b, ch[x], b.children[x]);
        EncodeInjective(ch[x], b.children[x]);
      }
      assert ch == b.children;
  }

  lemma NodeKind(a: Trie, b: Trie)
    requires Sound(a) && Sound(b) && NodeOf(a) == NodeOf(b)
    ensures a.Empty? <==> b.Empty?
    ensures a.Leaf? ==> a == b
    ensures a.Ext? ==> b.Ext? && a.path == b.path && Reference(a.child) == Reference(b.child)
    ensures a.Branch? ==> b.Branch? && StateMask(a) == StateMask(b) && ChildReferences(a, 16) == ChildReferences(b, 16)
  {
    hide Reference;
  }

  /** Corresponding children have equal encodings and are distinct enough to go on. */
  lemma SameChild(a: Trie, b: Trie, c: Trie, d: Trie)
    requires Sound(a) && Sound(b) && Distinct(a, b) && IsChild(c, a) && IsChild(d, b) && Reference(c) == Reference(d)
    ensures Sound(c) && Sound(d) && Distinct(c, d) && Encode(c) == Encode(d)
  {
    assert Sound(c) && Sound(d) && Distinct(c, b);
    DistinctChild(c, b, d);
    ReferenceInjective(c, d);
  }

  lemma SameReferences(a: Trie, b: Trie, x: Nibble)
    requires a.Branch? && b.Branch? && |a.children| == |b.children| == 16
    requires StateMask(a) == StateMask(b) && ChildReferences(a, 16) == ChildReferences(b, 16)
    ensures Reference(a.children[x]) == Reference(b.children[x])
  {
    assert x in StateMask(a) <==> x in StateMask(b);
    if x in StateMask(a) {
      ChildReferenceAt(a, x, 16);
      ChildReferenceAt(b, x, 16);
    }
  }

  /** Maps with the same root hash are the same map. */
  lemma SameRootSameMap(m: Entries, n: Entries)
    requires PrefixFree(m) && LeavesOnly(m) && PrefixFree(n) && LeavesOnly(n)
    requires Fits(TrieOf(m)) && Fits(TrieOf(n)) && Distinct(TrieOf(m), TrieOf(n))
    requires RootHash(TrieOf(m)) == RootHash(TrieOf(n))
    ensures m == n
  {
    SoundTrie(m);
    SoundTrie(n);
    EncodeInjective(TrieOf(m), TrieOf(n));
    forall k: Nibbles
      ensures Get(m, k) == Get(n, k)
    {
      LookupIsGet(m, k);
      LookupIsGet(n, k);
    }
    SameAnswers(m, n);
  }

  lemma SoundTrie(m: Entries)
    requires PrefixFree(m) && LeavesOnly(m) && Fits(TrieOf(m))
    ensures Sound(TrieOf(m))
  {
    TrieOfAt(m);
    AtCanonical(m, []);
    WholeAt(m, []);
  }

  lemma SameAnswers(m: Entries, n: Entries)
    requires LeavesOnly(m) && LeavesOnly(n) && forall k: Nibbles :: Get(m, k) == Get(n, k)
    ensures m == n
  {
    assert forall k: Nibbles :: k in m <==> Get(m, k).Some?;
    assert forall k: Nibbles :: k in n <==> Get(n, k).Some?;
    assert forall k | k in m :: k in n && Get(m, k) == Get(n, k);
  }
}
