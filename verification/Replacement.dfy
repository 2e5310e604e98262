/** Feeding finished branches back as bare hashes: replacing everything below a set of branches by
    their hashes changes neither the root nor any reference above them. */
module Replacement {
  import opened Primitives
  import opened Tries
  import opened Traversal

  /** Where to cut, and whether each branch cut off is kept in the database. */
  type Cuts = map<Nibbles, bool>

  /** The cuts are at non-empty, disjoint paths of branches long enough to be hashed. */
  ghost predicate Cuttable(m: Entries, cuts: Cuts)
    requires PrefixFree(m)
  {
    && [] !in cuts
    && (forall p, q | p in cuts && q in cuts && p <= q :: p == q)
    && (forall p | p in cuts :: At(m, p).Branch? && |Encode(At(m, p))| >= 32)
  }

  /** No cut lies at or above k. */
  ghost predicate Spared(cuts: Cuts, k: Nibbles) {
    forall p | p in cuts :: !(p <= k)
  }

  /** The entries after the cuts: whatever lies below a cut becomes the hash of the branch. */
  ghost function Replaced(m: Entries, cuts: Cuts): (r: Entries)
    requires PrefixFree(m)
    ensures forall k :: k in r <==> k in cuts || (k in m && Spared(cuts, k))
  {
    (map k | k in m && Spared(cuts, k) :: m[k]) + (map p | p in cuts :: Hash(Keccak(Encode(At(m, p))), cuts[p]))
  }

  lemma BranchHasKey(m: Entries, p: Nibbles) returns (k: Nibbles)
    requires PrefixFree(m) && !At(m, p).Empty?
    ensures k in m && p <= k
  {
    AtCanonical(m, p);
    k :| k in m && p <= k;
  }

  lemma ReplacedPrefixFree(m: Entries, cuts: Cuts)
    requires PrefixFree(m) && Cuttable(m, cuts)
    ensures PrefixFree(Replaced(m, cuts))
  {
    hide At, Encode;
    var r := Replaced(m, cuts);
    forall a, b | a in r && b in r && a <= b
      ensures a == b
    {
      if a !in cuts && b in cuts {
        var k := BranchHasKey(m, b);
        assert false;
      }
    }
  }

  /** No cut lies strictly above q. */
  ghost predicate Clear(cuts: Cuts, q: Nibbles) {
    forall p | p in cuts && p <= q :: p == q
  }

  /** The subtrie after the cuts looks from above like the one before; cut says that it is
      itself cut off, told that the cuts know which branches are kept. */
  ghost predicate Alike(s: Trie, t: Trie, cut: bool, told: bool) {
    && Reference(s) == Reference(t)
    && RootHash(s) == RootHash(t)
    && (s.Empty? <==> t.Empty?)
    && (HashChild(s) <==> HashChild(t))
    && (told ==> (TreeChild(s) <==> TreeChild(t)))
    && (!cut ==> Encode(s) == Encode(t) && (s.Branch? <==> t.Branch?))
  }

  lemma StubAlike(t: Trie, stored: bool)
    requires t.Branch? && |Encode(t)| >= 32
    ensures Alike(Stub(Keccak(Encode(t)), stored), t, true, stored == TreeChild(t))
  {
    assert TreeChild(Stub(Keccak(Encode(t)), stored)) == stored;
    hide Encode, TreeChild;
    assert Reference(Stub(Keccak(Encode(t)), stored)) == Reference(t);
  }

  lemma ExtNodesAlike(path: Nibbles, s: Trie, t: Trie, cut: bool, told: bool)
    requires Alike(s, t, cut, told)
    ensures Alike(Ext(path, s), Ext(path, t), false, told)
  {
    assert TreeChild(Ext(path, s)) == TreeChild(s) && TreeChild(Ext(path, t)) == TreeChild(t);
    assert Encode(Ext(path, s)) == Encode(Ext(path, t));
    hide TreeChild, Encode;
  }

  /** The children are pairwise alike. */
  ghost predicate ChildrenAlike(a: seq<Trie>, b: seq<Trie>, told: bool) {
    && |a| == 16 == |b|
    && forall i: Nibble :: Alike(a[i], b[i], true, told)
  }

  lemma BranchNodesAlike(a: seq<Trie>, b: seq<Trie>, told: bool)
    requires ChildrenAlike(a, b, told)
    ensures Alike(Branch(a), Branch(b), false, told)
  {
    SameSlots(a, b, told);
    SameKept(a, b, told);
    hide TreeChild, Encode, ChildrenAlike;
  }

  lemma SameSlots(a: seq<Trie>, b: seq<Trie>, told: bool)
    requires ChildrenAlike(a, b, told)
    ensures Encode(Branch(a)) == Encode(Branch(b))
  {
    hide Reference, RootHash, TreeChild;
    forall i | 0 <= i < 16
      ensures Reference(a[i]) == Reference(b[i])
    {
      var x: Nibble := i;
      assert Alike(a[x], b[x], true, told);
    }
    assert seq(|a|, i requires 0 <= i < |a| => Reference(a[i])) == seq(|b|, i requires 0 <= i < |b| => Reference(b[i]));
  }

  lemma SameKept(a: seq<Trie>, b: seq<Trie>, told: bool)
    requires ChildrenAlike(a, b, told)
    ensures told ==> (TreeChild(Branch(a)) <==> TreeChild(Branch(b)))
  {
    hide Reference, RootHash, Encode;
    forall i | 0 <= i < 16
      ensures (HashChild(a[i]) <==> HashChild(b[i])) && (told ==> (TreeChild(a[i]) <==> TreeChild(b[i])))
    {
      var x: Nibble := i;
      assert Alike(a[x], b[x], true, told);
    }
  }

  /** The cuts say of each branch whether it is kept. */
  ghost predicate Told(m: Entries, cuts: Cuts)
    requires PrefixFree(m)
  {
    forall p | p in cuts :: cuts[p] == TreeChild(At(m, p))
  }

  lemma {:induction false} ReplacedAlike(m: Entries, cuts: Cuts, q: Nibbles)
    requires PrefixFree(m) && Cuttable(m, cuts) && Clear(cuts, q) && PrefixFree(Replaced(m, cuts))
    ensures Alike(At(Replaced(m, cuts), q), At(m, q), q in cuts, Told(m, cuts))
    decreases At(m, q)
  {
    hide At, Encode, Reference, TreeChild, Replaced, Cuttable, Clear, Told;
    var r := Replaced(m, cuts);
    if q in cuts {
      CutHere(m, cuts, q);
    } else {
      AtCanonical(m, q);
      match At(m, q)
      case Empty => EmptyAlike(m, cuts, q);
      case Leaf(_, _) => SingleAlike(m, cuts, q);
      case Stub(_, _) => SingleAlike(m, cuts, q);
      case Ext(p, c) =>
        ExtLeadsTo(m, q);
        ClearBelowExt(m, cuts, q);
        ReplacedAlike(m, cuts, q + p);
        ExtAlike(m, cuts, q);
      case Branch(ch) =>
        BranchIsBelow(m, q);
        forall x: Nibble
          ensures Alike(At(r, q + [x]), At(m, q + [x]), q + [x] in cuts, Told(m, cuts))
        {
          assert ch[x] == At(m, q + [x]);
          ClearBelowBranch(cuts, q, x);
          ReplacedAlike(m, cuts, q + [x]);
        }
        BranchAlike(m, cuts, q);
    }
  }

  lemma CutHere(m: Entries, cuts: Cuts, q: Nibbles)
    requires PrefixFree(m) && Cuttable(m, cuts) && PrefixFree(Replaced(m, cuts)) && q in cuts
    ensures Alike(At(Replaced(m, cuts), q), At(m, q), true, Told(m, cuts))
  {
    var r := Replaced(m, cuts);
    hide At, Encode;
    assert r[q] == Hash(Keccak(Encode(At(m, q))), cuts[q]);
    AtSingle(r, q, q);
    StubAlike(At(m, q), cuts[q]);
  }

  lemma EmptyAlike(m: Entries, cuts: Cuts, q: Nibbles)
    requires PrefixFree(m) && Cuttable(m, cuts) && PrefixFree(Replaced(m, cuts)) && At(m, q).Empty? && q !in cuts
    ensures Alike(At(Replaced(m, cuts), q), At(m, q), false, Told(m, cuts))
  {
    hide At, Encode;
    var r := Replaced(m, cuts);
    AtCanonical(m, q);
    AtCanonical(r, q);
    if Inhabited(r, q) {
      var k :| k in r && q <= k;
      assert k in cuts;
      var j := BranchHasKey(m, k);
      assert false;
    }
  }

  /** A key that stands alone below q is spared. */
  lemma SingleAlike(m: Entries, cuts: Cuts, q: Nibbles)
    requires PrefixFree(m) && Cuttable(m, cuts) && PrefixFree(Replaced(m, cuts)) && q !in cuts && Clear(cuts, q)
    requires At(m, q).Leaf? || At(m, q).Stub?
    ensures Alike(At(Replaced(m, cuts), q), At(m, q), false, Told(m, cuts))
  {
    var r := Replaced(m, cuts);
    var k := SingleKey(m, q);
    SingleSpared(m, cuts, q, k);
    assert r[k] == m[k];
    hide At, Encode, Reference, RootHash, TreeChild, Replaced, Cuttable, Clear, Told, Spared, Alike;
    AtSingle(m, q, k);
    AtSingle(r, q, k);
    AlikeSelf(At(m, q), Told(m, cuts));
  }

  lemma AlikeSelf(t: Trie, told: bool)
    ensures Alike(t, t, false, told)
  {
  }

  lemma SingleKey(m: Entries, q: Nibbles) returns (k: Nibbles)
    requires PrefixFree(m) && (At(m, q).Leaf? || At(m, q).Stub?)
    ensures k in m && q <= k && forall j | j in m && q <= j :: j == k
    ensures At(m, q).Stub? ==> k == q && m[k].Hash?
    ensures At(m, q).Leaf? ==> m[k].Data?
  {
    var u := Under(m, q);
    CommonLongest(u, q);
    CoreKind(u);
    k := Common(u);
    CoreSingle(u, k);
    assert forall j | j in m && q <= j :: j in u;
  }

  lemma SingleSpared(m: Entries, cuts: Cuts, q: Nibbles, k: Nibbles)
    requires PrefixFree(m) && Cuttable(m, cuts) && q !in cuts && Clear(cuts, q)
    requires k in m && q <= k && forall j | j in m && q <= j :: j == k
    ensures Spared(cuts, k) && forall j | j in Replaced(m, cuts) && q <= j :: j == k
  {
    forall p | p in cuts
      ensures !(p <= k) && !(q <= p)
    {
      PrefixesMeet(cuts, p, q, k);
      if q <= p {
        NotAlone(m, p, q, k);
        assert false;
      }
    }
    hide At;
  }

  lemma PrefixesMeet(cuts: Cuts, p: Nibbles, q: Nibbles, k: Nibbles)
    requires p in cuts && q !in cuts && Clear(cuts, q) && q <= k
    ensures p <= k ==> q <= p
  {
    if p <= k {
      PrefixesCompare(p, q, k);
      PrefixesCompare(q, p, k);
    }
  }

  /** Below a branch there is more than one key. */
  lemma NotAlone(m: Entries, p: Nibbles, q: Nibbles, k: Nibbles)
    requires PrefixFree(m) && At(m, p).Branch? && q <= p
    ensures !(forall j | j in m && q <= j :: j == k)
  {
    BranchCommon(m, p);
    var u := Under(m, p);
    var a, b :| a in u && b in u && Parts(p, a, b);
    assert a in m && b in m && q <= a && q <= b && a != b;
  }

  lemma ClearBelowBranch(cuts: Cuts, q: Nibbles, x: Nibble)
    requires Clear(cuts, q) && q !in cuts
    ensures Clear(cuts, q + [x])
  {
    forall p | p in cuts && p <= q + [x]
      ensures p == q + [x]
    {
      if |p| <= |q| {
        PrefixesCompare(p, q, q + [x]);
      }
    }
  }

  /** No cut lies inside an extension's path. */
  lemma ClearBelowExt(m: Entries, cuts: Cuts, q: Nibbles)
    requires PrefixFree(m) && Cuttable(m, cuts) && Clear(cuts, q) && q !in cuts && At(m, q).Ext?
    ensures Clear(cuts, q + At(m, q).path)
  {
    var e := q + At(m, q).path;
    ExtLeadsTo(m, q);
    hide At;
    forall p | p in cuts && p <= e
      ensures p == e
    {
      PrefixesCompare(p, q, e);
      PrefixesCompare(q, p, e);
      if p != e {
        InsideExt(m, q, p, e);
        assert false;
      }
    }
  }

  /** Strictly inside an extension there is no branch. */
  lemma InsideExt(m: Entries, q: Nibbles, p: Nibbles, e: Nibbles)
    requires PrefixFree(m) && q <= p && p <= e && p != e && Under(m, q) == Under(m, e)
    ensures !At(m, p).Branch?
  {
    if At(m, p).Branch? {
      BranchCommon(m, p);
      hide At, Core;
      forall a | a in Under(m, p)
        ensures e <= a
      {
        assert a in Under(m, q);
        assert a in Under(m, e);
      }
      NoneParts(Under(m, p), p, e);
    }
  }

  /** Keys that all go on past c do not part at it. */
  lemma NoneParts(u: Entries, c: Nibbles, e: Nibbles)
    requires u != map[] && PrefixFree(u) && c <= e && c != e && forall a | a in u :: e <= a
    ensures Common(u) != c
  {
    CommonLongest(u, e);
  }

  lemma ExtAlike(m: Entries, cuts: Cuts, q: Nibbles)
    requires PrefixFree(m) && Cuttable(m, cuts) && PrefixFree(Replaced(m, cuts)) && q !in cuts && Clear(cuts, q)
    requires At(m, q).Ext? && Clear(cuts, q + At(m, q).path)
    requires Alike(At(Replaced(m, cuts), q + At(m, q).path), At(m, q + At(m, q).path),
                   q + At(m, q).path in cuts, Told(m, cuts))
    ensures Alike(At(Replaced(m, cuts), q), At(m, q), false, Told(m, cuts))
  {
    var r := Replaced(m, cuts);
    var e := q + At(m, q).path;
    ExtLeadsTo(m, q);
    AtCanonical(m, q);
    hide At, Encode, Reference, TreeChild, Replaced, Cuttable, Clear, Told;
    forall j | j in r && q <= j
      ensures e <= j
    {
      GoesOn(m, cuts, q, e, j);
    }
    AtSkip(r, q, e);
    assert e != q;
    assert e[|q|..] == At(m, q).path;
    ExtNodesAlike(At(m, q).path, At(r, e), At(m, e), e in cuts, Told(m, cuts));
  }

  lemma GoesOn(m: Entries, cuts: Cuts, q: Nibbles, e: Nibbles, j: Nibbles)
    requires PrefixFree(m) && Cuttable(m, cuts) && Clear(cuts, e) && q <= e && Under(m, q) == Under(m, e)
    requires j in Replaced(m, cuts) && q <= j
    ensures e <= j
  {
    hide At;
    if j in cuts {
      var k := BranchHasKey(m, j);
      assert k in Under(m, q);
      assert k in Under(m, e);
      PrefixesCompare(e, j, k);
      PrefixesCompare(j, e, k);
    } else {
      assert j in Under(m, q);
      assert j in Under(m, e);
    }
  }

  lemma BelowAlike(m: Entries, cuts: Cuts, q: Nibbles)
    requires PrefixFree(m) && PrefixFree(Replaced(m, cuts))
    requires forall x: Nibble :: Alike(At(Replaced(m, cuts), q + [x]), At(m, q + [x]), q + [x] in cuts, Told(m, cuts))
    ensures ChildrenAlike(Below(Replaced(m, cuts), q), Below(m, q), Told(m, cuts))
  {
    hide At, Encode, Reference, RootHash, TreeChild, Replaced, Told;
    var a, b := Below(Replaced(m, cuts), q), Below(m, q);
    forall i: Nibble
      ensures Alike(a[i], b[i], true, Told(m, cuts))
    {
      assert a[i] == At(Replaced(m, cuts), q + [i]) && b[i] == At(m, q + [i]);
    }
  }

  lemma BranchAlike(m: Entries, cuts: Cuts, q: Nibbles)
    requires PrefixFree(m) && Cuttable(m, cuts) && PrefixFree(Replaced(m, cuts)) && q !in cuts
    requires At(m, q) == Branch(Below(m, q))
    requires forall x: Nibble :: Alike(At(Replaced(m, cuts), q + [x]), At(m, q + [x]), q + [x] in cuts, Told(m, cuts))
    ensures Alike(At(Replaced(m, cuts), q), At(m, q), false, Told(m, cuts))
  {
    var r := Replaced(m, cuts);
    AtCanonical(m, q);
    hide At, Encode, Reference, RootHash, TreeChild, Replaced, Cuttable, Told;
    BelowAlike(m, cuts, q);
    var a, b := Below(r, q), Below(m, q);
    var i: Nibble, j: Nibble :| i < j && !b[i].Empty? && !b[j].Empty?;
    AtCanonical(r, q + [i]);
    AtCanonical(r, q + [j]);
    AtBranch(r, q, i, j);
    BranchNodesAlike(a, b, Told(m, cuts));
  }

  /** Every branch that is left is kept as before and keeps its record, when the cuts say which
      branches are kept. */
  lemma SameRecord(m: Entries, cuts: Cuts, q: Nibbles)
    requires PrefixFree(m) && Cuttable(m, cuts) && Told(m, cuts) && Spared(cuts, q) && At(m, q).Branch?
    ensures PrefixFree(Replaced(m, cuts))
    ensures At(Replaced(m, cuts), q).Branch? && |At(Replaced(m, cuts), q).children| == 16 == |At(m, q).children|
    ensures TreeChild(At(Replaced(m, cuts), q)) <==> TreeChild(At(m, q))
    ensures CompactOf(At(Replaced(m, cuts), q), q) == CompactOf(At(m, q), q)
  {
    ReplacedPrefixFree(m, cuts);
    var r := Replaced(m, cuts);
    ReplacedAlike(m, cuts, q);
    BranchIsBelow(m, q);
    BranchIsBelow(r, q);
    hide At, Encode, Reference, RootHash, TreeChild, Replaced, Cuttable, Told, CompactOf;
    forall x: Nibble
      ensures Alike(At(r, q + [x]), At(m, q + [x]), q + [x] in cuts, Told(m, cuts))
    {
      ClearBelowBranch(cuts, q, x);
      ReplacedAlike(m, cuts, q + [x]);
    }
    BelowAlike(m, cuts, q);
    CompactAlike(Below(r, q), Below(m, q), q);
  }

  lemma CompactAlike(a: seq<Trie>, b: seq<Trie>, q: Nibbles)
    requires ChildrenAlike(a, b, true)
    ensures CompactOf(Branch(a), q) == CompactOf(Branch(b), q)
  {
    BranchNodesAlike(a, b, true);
    hide Encode, Reference, RootHash, TreeChild;
    SameHashes(a, b, 16);
    assert StateMask(Branch(a)) == StateMask(Branch(b));
    assert HashMask(Branch(a)) == HashMask(Branch(b));
    assert TreeMask(Branch(a)) == TreeMask(Branch(b));
  }

  lemma {:induction false} SameHashes(a: seq<Trie>, b: seq<Trie>, hi: nat)
    requires ChildrenAlike(a, b, true) && hi <= 16
    ensures ChildHashes(Branch(a), hi) == ChildHashes(Branch(b), hi)
  {
    if hi > 0 {
      hide Encode, Reference, RootHash, TreeChild;
      SameHashes(a, b, hi - 1);
      var x: Nibble := hi - 1;
      assert Alike(a[x], b[x], true, true);
    }
  }

  /** Cutting branches out and putting their hashes in leaves the root hash unchanged. */
  lemma SameRoot(m: Entries, cuts: Cuts)
    requires PrefixFree(m) && Cuttable(m, cuts)
    ensures PrefixFree(Replaced(m, cuts))
    ensures RootHash(TrieOf(Replaced(m, cuts))) == RootHash(TrieOf(m))
  {
    ReplacedPrefixFree(m, cuts);
    TrieOfAt(m);
    TrieOfAt(Replaced(m, cuts));
    hide At, Encode, Reference, TreeChild, Replaced, Cuttable, Told;
    ReplacedAlike(m, cuts, []);
  }
}
