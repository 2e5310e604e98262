/** Two runs of the builder, one over all entries and one in which some branches are added by hash:
    they return the same root, and the second records the first's branches that were not cut off. */
module TwoRuns {
  import opened Primitives
  import opened Tries
  import opened Traversal
  import opened Locations
  import opened BuilderInvariant
  import opened Runs
  import opened Replacement

  // ----- Branches of the trie and branches of the map -----

  /** A branch at a path of the map stands there in the trie. */
  lemma {:induction false} BranchStands(m: Entries, q: Nibbles, p: Nibbles)
    requires PrefixFree(m) && At(m, q + p).Branch?
    ensures NodeAt(At(m, q), p) == At(m, q + p)
    decreases At(m, q)
  {
    hide At, PrefixFree, Under;
    if p == [] {
      assert q + p == q;
    } else {
      match At(m, q)
      case Ext(short, c) =>
        AtCanonical(m, q);
        ExtensionOnWay(m, q, p);
        ExtLeadsTo(m, q);
        var rest := p[|short|..];
        assert p == short + rest && (q + short) + rest == q + p;
        BranchStands(m, q + short, rest);
        NodeAtExt(At(m, q), rest);
      case Branch(ch) =>
        BranchIsBelow(m, q);
        assert p == [p[0]] + p[1..] && (q + [p[0]]) + p[1..] == q + p;
        assert ch[p[0]] == At(m, q + [p[0]]);
        BranchStands(m, q + [p[0]], p[1..]);
        NodeAtBranch(At(m, q), p[0], p[1..]);
      case _ => AloneOnWay(m, q, p);
    }
  }

  lemma ExtensionOnWay(m: Entries, q: Nibbles, p: Nibbles)
    requires PrefixFree(m) && At(m, q).Ext? && At(m, q + p).Branch? && p != []
    ensures At(m, q).path <= p
  {
    ExtLeadsTo(m, q);
    var short := At(m, q).path;
    var k := BranchHasKey(m, q + p);
    hide At, PrefixFree;
    assert k in Under(m, q);
    assert k in Under(m, q + short);
    PrefixesCompare(q + short, q + p, k);
    PrefixesCompare(q + p, q + short, k);
    if |p| < |short| {
      InsideExt(m, q, q + p, q + short);
    }
    assert short == (q + short)[|q|..] && p == (q + p)[|q|..];
  }

  lemma AloneOnWay(m: Entries, q: Nibbles, p: Nibbles)
    requires PrefixFree(m) && At(m, q + p).Branch?
    ensures At(m, q).Ext? || At(m, q).Branch?
  {
    if At(m, q).Leaf? || At(m, q).Stub? {
      var k := SingleKey(m, q);
      NotAlone(m, q + p, q, k);
    } else if At(m, q).Empty? {
      var k := BranchHasKey(m, q + p);
      AtCanonical(m, q);
    }
  }

  /** The branches that stand in a map's trie are those at the paths of the map. */
  lemma BranchesOfMap(m: Entries, p: Nibbles)
    requires PrefixFree(m)
    ensures NodeAt(TrieOf(m), p).Branch? <==> At(m, p).Branch?
    ensures At(m, p).Branch? ==> NodeAt(TrieOf(m), p) == At(m, p)
  {
    TrieOfAt(m);
    if NodeAt(TrieOf(m), p).Branch? {
      NodeInTrie(m, p);
    }
    if At(m, p).Branch? {
      assert [] + p == p;
      BranchStands(m, [], p);
    }
  }

  // ----- Records -----

  /** At or below a cut there is no branch any more. */
  lemma NoBranchBelowCut(m: Entries, cuts: Cuts, p: Nibbles)
    requires PrefixFree(m) && Cuttable(m, cuts) && PrefixFree(Replaced(m, cuts)) && !Spared(cuts, p)
    ensures !At(Replaced(m, cuts), p).Branch?
  {
    var r := Replaced(m, cuts);
    var c :| c in cuts && c <= p;
    if At(r, p).Branch? {
      BranchCommon(r, p);
      hide At, Encode;
      var u := Under(r, p);
      forall k | k in u
        ensures k == c
      {
        assert c <= k && c in r && k in r;
      }
      var k := BranchHasKey(r, p);
      NotAlone(r, p, p, c);
    }
  }

  /** The records of the replaced map are those of the map at the spared paths. */
  lemma SameRecords(m: Entries, cuts: Cuts, p: Nibbles)
    requires PrefixFree(m) && Cuttable(m, cuts) && Told(m, cuts) && PrefixFree(Replaced(m, cuts))
    ensures var a, b := RecordedAll(PostOrder(TrieOf(m), [])), RecordedAll(PostOrder(TrieOf(Replaced(m, cuts)), []));
            (p in b <==> p in a && Spared(cuts, p)) && (p in b ==> b[p] == a[p])
  {
    hide At, Encode, Replaced, Cuttable, Told, NodeAt, TrieOf, PostOrder, RecordedAll, CompactOf, TreeChild, Canonical;
    var r := Replaced(m, cuts);
    CanonicalTrie(m);
    CanonicalTrie(r);
    RecordsOfTrie(TrieOf(m), p);
    RecordsOfTrie(TrieOf(r), p);
    BranchesOfMap(m, p);
    BranchesOfMap(r, p);
    if Spared(cuts, p) {
      SparedBranch(m, cuts, p);
    } else {
      NoBranchBelowCut(m, cuts, p);
    }
  }

  lemma CanonicalTrie(m: Entries)
    requires PrefixFree(m)
    ensures Canonical(TrieOf(m))
  {
    TrieOfAt(m);
    AtCanonical(m, []);
  }

  lemma SparedBranch(m: Entries, cuts: Cuts, p: Nibbles)
    requires PrefixFree(m) && Cuttable(m, cuts) && Told(m, cuts) && PrefixFree(Replaced(m, cuts)) && Spared(cuts, p)
    ensures var r := Replaced(m, cuts);
            && (At(r, p).Branch? <==> At(m, p).Branch?)
            && (At(r, p).Branch? ==>
                  && |At(r, p).children| == 16 == |At(m, p).children|
                  && (TreeChild(At(r, p)) <==> TreeChild(At(m, p)))
                  && CompactOf(At(r, p), p) == CompactOf(At(m, p), p))
  {
    hide At, Encode, Replaced, Cuttable, Told, CompactOf, TreeChild, Reference, RootHash;
    ReplacedAlike(m, cuts, p);
    if At(m, p).Branch? {
      SameRecord(m, cuts, p);
    }
  }

  /** The replaced map's branch children can be hashed when the map's can. */
  lemma ReplacedHashed(m: Entries, cuts: Cuts)
    requires PrefixFree(m) && Cuttable(m, cuts) && Hashed(m) && PrefixFree(Replaced(m, cuts))
    ensures Hashed(Replaced(m, cuts))
  {
    hide At, Encode, Replaced, Cuttable, Reference, RootHash;
    var r := Replaced(m, cuts);
    forall p: Nibbles, x: Nibble | At(r, p).Branch? && At(r, p + [x]).Branch?
      ensures |Encode(At(r, p + [x]))| >= 32
    {
      StillBranch(m, cuts, p);
      StillBranch(m, cuts, p + [x]);
      assert HashedChildren(m, p);
    }
  }

  lemma StillBranch(m: Entries, cuts: Cuts, p: Nibbles)
    requires PrefixFree(m) && Cuttable(m, cuts) && PrefixFree(Replaced(m, cuts)) && At(Replaced(m, cuts), p).Branch?
    ensures At(m, p).Branch? && Encode(At(Replaced(m, cuts), p)) == Encode(At(m, p))
  {
    hide At, Encode, Replaced, Cuttable, Reference, RootHash, Told;
    if !Spared(cuts, p) {
      NoBranchBelowCut(m, cuts, p);
    }
    ReplacedAlike(m, cuts, p);
  }

  // ----- The two runs -----

  method RunBoth(items: seq<Entry>, fewer: seq<Entry>, ghost cuts: Cuts)
    returns (root: Word, updates: Updates, root2: Word, updates2: Updates)
    requires Feedable(items) && Feedable(fewer) && PrefixFree(EntriesOf(items)) && Hashed(EntriesOf(items))
    requires Cuttable(EntriesOf(items), cuts) && Told(EntriesOf(items), cuts)
    requires EntriesOf(fewer) == Replaced(EntriesOf(items), cuts)
    ensures root2 == root == RootHash(TrieOf(EntriesOf(items)))
    ensures forall p :: p in updates2 <==> p in updates && Spared(cuts, p)
    ensures forall p | p in updates2 :: updates2[p] == updates[p]
  {
    ghost var m := EntriesOf(items);
    hide *;
    ReplacedPrefixFree(m, cuts);
    SameRoot(m, cuts);
    ReplacedHashed(m, cuts);
    var first, second;
    root, first := RunBuilder(items, true, null);
    root2, second := RunBuilder(fewer, true, null);
    updates, updates2 := first.value, second.value;
    forall p: Nibbles
      ensures (p in updates2 <==> p in updates && Spared(cuts, p)) && (p in updates2 ==> updates2[p] == updates[p])
    {
      SameRecords(m, cuts, p);
    }
  }
}
