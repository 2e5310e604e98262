/** From entries to a verdict: build the trie's root with a retainer on, pick a key's proof out of
    the retained nodes, and verify it. */
module EndToEnd {
  import opened Primitives
  import opened Rlp
  import opened HexPrefixes
  import opened Tries
  import opened Traversal
  import Locations
  import opened TrieNodes
  import opened Lookups
  import opened Verify
  import opened Retention
  import opened ProofNodes
  import opened Runs

  /** With no entries the retained proof is the empty string's code alone. */
  lemma EmptyListing(cfg: Config, key: Nibbles, r: seq<Pair>)
    requires Matching(Run(cfg, PostOrder(TrieOf(map[]), [])).nodes[[] := [EMPTY_STRING_CODE]], key, r)
    ensures VerifyProof(RootHash(TrieOf(map[])), key, None, Seconds(r)) == Accepted
  {
    var p: Pair := ([], [EMPTY_STRING_CODE]);
    assert p in r;
    assert r[0] in r;
  }

  /** A target's proof is accepted for the value that was entered, or for its absence, exactly when
      the nodes on its path have at least 32 bytes; with no entries it always is.  The root of a
      non-empty trie must not collide with the empty trie's. */
  method ProveKey(items: seq<Entry>, targets: seq<Nibbles>, key: Nibbles, expected: Option<Bytes>)
    returns (root: Word, proof: seq<Bytes>, verdict: Verdict)
    requires Runs.Ascending(items) && PrefixFree(EntriesOf(items)) && LeavesOnly(EntriesOf(items))
    requires Fits(TrieOf(EntriesOf(items))) && key in targets && expected == Get(EntriesOf(items), key)
    requires items != [] ==> RootHash(TrieOf(EntriesOf(items))) != EMPTY_ROOT_HASH
    ensures root == RootHash(TrieOf(EntriesOf(items)))
    ensures verdict == VerifyProof(root, key, expected, proof)
    ensures verdict == Accepted <==> items == [] || LongOnPath(TrieOf(EntriesOf(items)), key)
  {
    hide Fits, PrefixFree, LeavesOnly, Get, RootHash, TrieOf, Run, PostOrder, LongOnPath, VerifyProof, Matching;
    var retainer := new ProofRetainer(targets, None);
    var updates;
    root, updates := RunBuilder(items, false, retainer);
    var listing := MatchingNodesSorted(retainer.proofNodes, key);
    proof := [];
    for i := 0 to |listing|
      invariant |proof| == i && forall j | 0 <= j < i :: proof[j] == listing[j].1
    {
      proof := proof + [listing[i].1];
    }
    assert proof == Seconds(listing);
    verdict := VerifyProofLoop(root, key, expected, proof);
    if items == [] {
      NoEntries(key);
      EmptyListing(retainer.Cfg(), key, listing);
    } else {
      SomeEntries(items);
      RetainedProofVerifies(EntriesOf(items), retainer.Cfg(), key, listing);
    }
  }

  lemma NoEntries(key: Nibbles)
    ensures EntriesOf([]) == map[] && Get(map[], key) == None && RootHash(TrieOf(map[])) == EMPTY_ROOT_HASH
  {
  }

  lemma SomeEntries(items: seq<Entry>)
    requires items != []
    ensures EntriesOf(items) != map[]
  {
    assert items[|items| - 1].key in EntriesOf(items);
  }

  /** A proof that is not accepted: the trie of one short entry, whose root is its leaf. */
  lemma ShortTrieRefused(r: seq<Pair>)
    requires Matching(Run(Config([[1]], None), PostOrder(Leaf([1], [5]), [])).nodes, [1], r)
    ensures PrefixFree(map[[1] := Data([5])]) && TrieOf(map[[1] := Data([5])]) == Leaf([1], [5])
    ensures VerifyProof(RootHash(Leaf([1], [5])), [1], Some([5]), Seconds(r)) != Accepted
  {
    var m: Entries := map[[1] := Data([5])];
    var t := Leaf([1], [5]);
    TrieOfAt(m);
    AtSingle(m, [], [1]);
    assert [1][0..] == [1];
    ShortLeaf();
    hide Encode, Run, PostOrder, Build, VerifyProof;
    assert Fits(t);
    assert LeavesOnly(m);
    RetainedProofVerifies(m, Config([[1]], None), [1], r);
    assert !LongOnPath(t, [1]) by { RootShort(t, [1]); }
  }

  lemma RootShort(t: Trie, key: Nibbles)
    requires |Encode(t)| < 32 && !t.Empty? && !t.Stub?
    ensures !LongOnPath(t, key)
  {
    hide Encode;
    var p: Nibbles := [];
    assert p <= key && Locations.NodeAt(t, p) == t;
  }

  lemma ShortLeaf()
    ensures |Encode(Leaf([1], [5]))| == 3
  {
    var p: Nibbles := [1];
    assert p[1..] == [];
    assert HexPrefix(p, true) == [0x31];
    ConcatTwo([0x31], [5]);
    assert EncodeString([0x31]) == [0x31] && EncodeString([5]) == [5];
  }
}
