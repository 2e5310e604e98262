/** The branch records told from the map alone: which branches leave one, and what its masks, its
    hashes and its root hash say about the keys. */
module Records {
  import opened Primitives
  import opened Masks
  import opened Tries
  import opened Traversal
  import opened Locations
  import opened Replacement
  import opened TwoRuns

  // ----- Paths of a map -----

  /** Keys part at the path, so a branch stands there. */
  ghost predicate Forks(m: Entries, q: Nibbles) {
    exists x: Nibble, y: Nibble :: x != y && Inhabited(m, q + [x]) && Inhabited(m, q + [y])
  }

  /** A whole branch is known at the path by its hash alone. */
  ghost predicate KnownHash(m: Entries, q: Nibbles) {
    q in m && m[q].Hash?
  }

  /** The branch at the path is in the database: it leaves a record, or is known to be stored. */
  ghost predicate InDatabase(m: Entries, r: Updates, q: Nibbles) {
    q in r || (KnownHash(m, q) && m[q].stored)
  }

  /** There are keys below q, and all of them go on to e. */
  ghost predicate GoesOn(m: Entries, q: Nibbles, e: Nibbles) {
    q <= e && Inhabited(m, q) && forall k | k in m && q <= k :: e <= k
  }

  /** The keys below q go on to a branch in the database. */
  ghost predicate LeadsToStored(m: Entries, r: Updates, q: Nibbles) {
    exists e :: GoesOn(m, q, e) && InDatabase(m, r, e)
  }

  /** The records of a run over the map. */
  ghost function RecordsOf(m: Entries): (r: Updates)
    requires PrefixFree(m)
  {
    RecordedAll(PostOrder(TrieOf(m), []))
  }

  lemma ForkIsBranch(m: Entries, q: Nibbles)
    requires PrefixFree(m)
    ensures At(m, q).Branch? <==> Forks(m, q)
    ensures NodeAt(TrieOf(m), q).Branch? <==> Forks(m, q)
  {
    BranchesOfMap(m, q);
    if At(m, q).Branch? {
      AtCanonical(m, q);
      BranchIsBelow(m, q);
      BranchForks(m, q);
    }
    if Forks(m, q) {
      hide At, PrefixFree, Inhabited;
      var x: Nibble, y: Nibble :| x != y && Inhabited(m, q + [x]) && Inhabited(m, q + [y]);
      AtBranch(m, q, x, y);
    }
  }

  lemma BranchForks(m: Entries, q: Nibbles)
    requires PrefixFree(m) && At(m, q) == Branch(Below(m, q)) && Canonical(At(m, q))
    ensures Forks(m, q)
  {
    hide At, PrefixFree, Inhabited;
    var ch := At(m, q).children;
    var i, j :| 0 <= i < j < 16 && !ch[i].Empty? && !ch[j].Empty?;
    var x: Nibble, y: Nibble := i, j;
    AtCanonical(m, q + [x]);
    AtCanonical(m, q + [y]);
  }

  lemma StubIsKnown(m: Entries, q: Nibbles)
    requires PrefixFree(m)
    ensures At(m, q).Stub? <==> KnownHash(m, q)
    ensures KnownHash(m, q) ==> At(m, q) == Stub(m[q].word, m[q].stored)
  {
    if At(m, q).Stub? {
      var k := SingleKey(m, q);
    }
    if KnownHash(m, q) {
      AtSingle(m, q, q);
    }
  }

  // ----- Which branches leave a record -----

  lemma RecordStands(m: Entries, p: Nibbles)
    requires PrefixFree(m)
    ensures var r := RecordsOf(m);
            && (p in r <==> At(m, p).Branch? && TreeChild(At(m, p)))
            && (p in r ==> |At(m, p).children| == 16 && r[p] == CompactOf(At(m, p), p))
  {
    hide At, PrefixFree, TrieOf, NodeAt, TreeChild, CompactOf, PostOrder, RecordedAll, Canonical;
    CanonicalTrie(m);
    RecordsOfTrie(TrieOf(m), p);
    BranchesOfMap(m, p);
  }

  /** A child that leads to a kept branch is one whose keys go on to a branch in the database. */
  lemma TreeChildMeans(m: Entries, q: Nibbles)
    requires PrefixFree(m)
    ensures TreeChild(At(m, q)) <==> LeadsToStored(m, RecordsOf(m), q)
  {
    hide At, PrefixFree, RecordsOf, Canonical, TreeChild, KnownHash, GoesOn;
    AtCanonical(m, q);
    var r := RecordsOf(m);
    if TreeChild(At(m, q)) {
      var e := TreeEnd(m, q);
      assert GoesOn(m, q, e) && InDatabase(m, r, e);
    }
    if LeadsToStored(m, r, q) {
      var e :| GoesOn(m, q, e) && InDatabase(m, r, e);
      EndIsTree(m, q, e);
    }
  }

  lemma TreeEnd(m: Entries, q: Nibbles) returns (e: Nibbles)
    requires PrefixFree(m) && TreeChild(At(m, q))
    ensures GoesOn(m, q, e) && InDatabase(m, RecordsOf(m), e)
  {
    AtCanonical(m, q);
    if At(m, q).Ext? {
      ExtLeadsTo(m, q);
      e := q + At(m, q).path;
      AllGoOn(m, q, e);
    } else {
      e := q;
    }
    assert TreeChild(At(m, e)) && (At(m, e).Branch? || At(m, e).Stub?);
    hide At, PrefixFree, RecordsOf, GoesOn;
    RecordStands(m, e);
    StubIsKnown(m, e);
  }

  lemma AllGoOn(m: Entries, q: Nibbles, e: Nibbles)
    requires q <= e && Under(m, q) == Under(m, e) && Inhabited(m, q)
    ensures GoesOn(m, q, e)
  {
    forall k | k in m && q <= k
      ensures e <= k
    {
      assert k in Under(m, q);
    }
  }

  lemma EndIsTree(m: Entries, q: Nibbles, e: Nibbles)
    requires PrefixFree(m) && GoesOn(m, q, e) && InDatabase(m, RecordsOf(m), e)
    ensures TreeChild(At(m, q))
  {
    hide At, PrefixFree, RecordsOf;
    RecordStands(m, e);
    StubIsKnown(m, e);
    AtSkip(m, q, e);
  }

  /** A branch leaves a record exactly when one of its children is a branch, or is known by its
      hash, or leads to a branch in the database. */
  lemma RecordedExactlyWhere(m: Entries, p: Nibbles)
    requires PrefixFree(m)
    ensures p in RecordsOf(m) <==>
            && Forks(m, p)
            && exists x: Nibble :: || Forks(m, p + [x])
                                   || KnownHash(m, p + [x])
                                   || LeadsToStored(m, RecordsOf(m), p + [x])
  {
    hide At, PrefixFree, RecordsOf, Forks, KnownHash, LeadsToStored, Canonical, TreeChild;
    RecordStands(m, p);
    ForkIsBranch(m, p);
    forall x: Nibble
      ensures HashChild(At(m, p + [x])) || TreeChild(At(m, p + [x])) <==>
              Forks(m, p + [x]) || KnownHash(m, p + [x]) || LeadsToStored(m, RecordsOf(m), p + [x])
    {
      ForkIsBranch(m, p + [x]);
      StubIsKnown(m, p + [x]);
      TreeChildMeans(m, p + [x]);
    }
    if At(m, p).Branch? {
      BranchIsBelow(m, p);
      TreeBranch(m, p);
    }
  }

  lemma TreeBranch(m: Entries, p: Nibbles)
    requires PrefixFree(m) && At(m, p) == Branch(Below(m, p))
    ensures TreeChild(At(m, p)) <==>
            exists x: Nibble :: HashChild(At(m, p + [x])) || TreeChild(At(m, p + [x]))
  {
    hide At, PrefixFree;
    var ch := At(m, p).children;
    if TreeChild(At(m, p)) {
      var i :| 0 <= i < |ch| && (HashChild(ch[i]) || TreeChild(ch[i]));
      var x: Nibble := i;
      assert ch[x] == At(m, p + [x]);
    }
    if x: Nibble :| HashChild(At(m, p + [x])) || TreeChild(At(m, p + [x])) {
      assert ch[x] == At(m, p + [x]);
    }
  }

  // ----- What a record says -----

  /** The masks of a record: the state mask holds the nibbles under which there are keys, the hash
      mask those under which a branch stands or is known, the tree mask those that lead to a
      branch in the database. */
  lemma RecordMasks(m: Entries, p: Nibbles, x: Nibble)
    requires PrefixFree(m) && p in RecordsOf(m)
    ensures var c := RecordsOf(m)[p];
            && (x in c.stateMask <==> Inhabited(m, p + [x]))
            && (x in c.hashMask <==> Forks(m, p + [x]) || KnownHash(m, p + [x]))
            && (x in c.treeMask <==> LeadsToStored(m, RecordsOf(m), p + [x]))
  {
    hide At, PrefixFree, RecordsOf, Forks, KnownHash, LeadsToStored, Canonical, TreeChild, Inhabited;
    RecordStands(m, p);
    BranchIsBelow(m, p);
    assert At(m, p).children[x] == At(m, p + [x]);
    AtCanonical(m, p + [x]);
    ForkIsBranch(m, p + [x]);
    StubIsKnown(m, p + [x]);
    TreeChildMeans(m, p + [x]);
  }

  /** The hashes of a record: one for each nibble of the hash mask, in order; the known hash where
      there is one, and the hash of the branch otherwise. */
  lemma RecordHashes(m: Entries, p: Nibbles, x: Nibble)
    requires PrefixFree(m) && p in RecordsOf(m)
    ensures var c := RecordsOf(m)[p];
            && |c.hashes| == Rank(c.hashMask, 16)
            && (x in c.hashMask ==>
                  && Rank(c.hashMask, x) < |c.hashes|
                  && c.hashes[Rank(c.hashMask, x)] ==
                     if KnownHash(m, p + [x]) then m[p + [x]].word else Keccak(Encode(At(m, p + [x]))))
  {
    hide At, PrefixFree, RecordsOf, Forks, Canonical, TreeChild, Inhabited, Encode, RootHash, KnownHash;
    RecordStands(m, p);
    BranchIsBelow(m, p);
    assert At(m, p).children[x] == At(m, p + [x]);
    hide StateMask, TreeMask;
    if x in RecordsOf(m)[p].hashMask {
      HashForNibbleIsChild(At(m, p), p, x);
      ChildHash(m, p + [x]);
    }
  }

  lemma ChildHash(m: Entries, q: Nibbles)
    requires PrefixFree(m) && HashChild(At(m, q))
    ensures RootHash(At(m, q)) == if KnownHash(m, q) then m[q].word else Keccak(Encode(At(m, q)))
  {
    hide At, PrefixFree, Encode;
    StubIsKnown(m, q);
  }

  /** The root hash of a record: that of the whole trie at the root, and none elsewhere. */
  lemma RecordRoot(m: Entries, p: Nibbles)
    requires PrefixFree(m) && p in RecordsOf(m)
    ensures RecordsOf(m)[p].rootHash == if p == [] then Some(RootHash(TrieOf(m))) else None
  {
    hide At, PrefixFree, RecordsOf, Canonical, TreeChild, RootHash, TrieOf;
    RecordStands(m, p);
    TrieOfAt(m);
  }
}
