/** Proofs that stop early: a two-leaf trie whose root alone is accepted as a proof that a key it
    holds is absent, and that a path above it has a leaf's reference as its value. */
module Truncation {
  import opened Primitives
  import opened Rlp
  import opened HexPrefixes
  import opened Tries
  import opened Traversal
  import opened TrieNodes
  import opened Lookups
  import opened Verify
  import opened VerifySound
  import opened VerifyComplete

  const VALUE: Bytes := seq(32, _ => 1)
  const LEAF: Trie := Leaf([0], VALUE)
  const ROOT: Trie := Branch(seq(16, i => if i < 2 then LEAF else Empty))
  const KEY: Nibbles := [0, 0]

  /** The two entries behind the root. */
  const ENTRIES: Entries := map[[0, 0] := Data(VALUE), [1, 0] := Data(VALUE)]

  lemma RootOfEntries()
    ensures PrefixFree(ENTRIES) && TrieOf(ENTRIES) == ROOT
  {
    hide At, PrefixFree, Inhabited;
    EntriesPart();
    var root: Nibbles := [];
    assert root + [0] == [0] && root + [1] == [1];
    AtBranch(ENTRIES, root, 0, 1);
    TrieOfAt(ENTRIES);
    ChildrenOfRoot(Below(ENTRIES, root));
  }

  lemma ChildrenOfRoot(ch: seq<Trie>)
    requires PrefixFree(ENTRIES) && ch == Below(ENTRIES, [])
    ensures Branch(ch) == ROOT
  {
    hide At, PrefixFree;
    var root: Nibbles := [];
    forall i | 0 <= i < 16
      ensures ch[i] == if i < 2 then LEAF else Empty
    {
      var x: Nibble := i;
      assert root + [x] == [x];
      EntryAt(x);
      assert ch[x] == At(ENTRIES, root + [x]);
    }
    assert ch == ROOT.children;
  }

  lemma EntriesPart()
    ensures PrefixFree(ENTRIES) && Inhabited(ENTRIES, [0]) && Inhabited(ENTRIES, [1])
  {
    var a: Nibbles, b: Nibbles, p: Nibbles, q: Nibbles := [0, 0], [1, 0], [0], [1];
    assert a in ENTRIES && b in ENTRIES && p <= a && q <= b;
  }

  lemma EntryAt(x: Nibble)
    requires PrefixFree(ENTRIES)
    ensures At(ENTRIES, [x]) == if x < 2 then LEAF else Empty
  {
    var k: Nibbles, p: Nibbles, a: Nibbles, b: Nibbles := [x, 0], [x], [0, 0], [1, 0];
    assert forall j: Nibbles | j in ENTRIES :: j == a || j == b;
    assert x < 2 ==> k == a || k == b;
    assert (p <= a ==> p[0] == a[0]) && (p <= b ==> p[0] == b[0]);
    hide At;
    if x < 2 {
      assert ENTRIES[k] == Data(VALUE) && p <= k && k[1..] == [0];
      AtSingle(ENTRIES, p, k);
    } else {
      AtCanonical(ENTRIES, p);
    }
  }

  lemma {:induction false} ConcatAtMost(items: seq<Bytes>, n: nat)
    requires forall i | 0 <= i < |items| :: |items[i]| <= n
    ensures |Concat(items)| <= n * |items|
  {
    if items != [] {
      ConcatAtMost(items[1..], n);
    }
  }

  lemma HeaderAtMost(n: nat)
    requires n < USIZE_LIMIT
    ensures 1 <= |EncodeHeader(true, n)| <= 9
  {
    if n >= 56 {
      BigEndianUsize(n);
    }
  }

  lemma LeafSize()
    ensures 32 <= |Encode(LEAF)| <= 64
  {
    var a, b := EncodeString(HexPrefix([0], true)), EncodeString(VALUE);
    var p: Nibbles := [0];
    assert p[1..] == [];
    assert HexPrefix(p, true) == [0x30];
    assert |a| == 1 && |b| == 33;
    ConcatTwo(a, b);
    HeaderAtMost(34);
  }

  lemma RootSize()
    ensures 32 <= |Encode(ROOT)| < 600
  {
    LeafSize();
    var ch := ROOT.children;
    var items := seq(|ch|, i requires 0 <= i < |ch| => Reference(ch[i])) + [[EMPTY_STRING_CODE]];
    assert Encode(ROOT) == EncodeList(items);
    assert items[0] == Reference(LEAF);
    hide Encode, HexPrefix, EncodeString;
    assert |Reference(LEAF)| == 33;
    forall i | 0 <= i < |items|
      ensures |items[i]| <= 33
    {
      EmptyReference();
    }
    ConcatAtMost(items, 33);
    ConcatHolds(items, 0);
    HeaderAtMost(|Concat(items)|);
  }

  lemma EmptyReference()
    ensures |Encode(Empty)| == 1 && |Reference(Empty)| == 1
  {
  }

  lemma RootProper()
    ensures Proper(ROOT)
  {
    LeafSize();
    RootSize();
    EmptyReference();
    hide Encode;
    var ch := ROOT.children;
    assert ch[0] == LEAF && ch[1] == LEAF;
    assert Fits(LEAF) && Whole(LEAF) && Canonical(LEAF) && Fits(Empty) && Whole(Empty) && Canonical(Empty);
    forall i | 0 <= i < |ch|
      ensures Fits(ch[i]) && Whole(ch[i]) && Canonical(ch[i])
    {
      assert ch[i] == LEAF || ch[i] == Empty;
    }
  }

  /** The root's node alone is accepted as a proof that the key is absent. */
  lemma RootAloneAccepted()
    ensures Proper(ROOT) && Lookup(ROOT, [], KEY) == Some(VALUE)
    ensures VerifyProof(RootHash(ROOT), KEY, None, [Encode(ROOT)]) == Accepted
  {
    RootProper();
    LeafSize();
    RootSize();
    hide Encode, Proper, VerifyProof, RootHash;
    var chain := Chain(ROOT, [], KEY);
    assert ROOT.children[0] == LEAF;
    assert Lookup(LEAF, [0], KEY) == Some(VALUE);
    assert Chain(LEAF, [0], KEY) == [Placed([0], LEAF)];
    var w: Nibbles := [];
    assert w + [KEY[|w|]] == [0];
    assert chain == [Placed([], ROOT)] + Chain(LEAF, [0], KEY);
    CutAccepted(ROOT, KEY, 1);
    assert Encodings(chain)[..1] == [Encode(ROOT)];
  }

  /** The root's node alone is accepted as a proof that the path to the first leaf, which is no key,
      has the leaf's reference as its value. */
  lemma LeafReferenceAccepted()
    ensures Proper(ROOT) && Lookup(ROOT, [], [0]) == None
    ensures VerifyProof(RootHash(ROOT), [0], Some(Reference(LEAF)), [Encode(ROOT)]) == Accepted
  {
    RootProper();
    LeafSize();
    hide Encode, Proper, VerifyProof, RootHash, Reference;
    var key: Nibbles, w: Nibbles := [0], [];
    var chain := Chain(ROOT, [], key);
    assert ROOT.children[0] == LEAF;
    assert w + [key[|w|]] == [0];
    assert Lookup(LEAF, [0], key) == None;
    assert Chain(LEAF, [0], key) == [Placed([0], LEAF)];
    assert chain == [Placed([], ROOT)] + Chain(LEAF, [0], key);
    CutAccepted(ROOT, key, 1);
    assert Encodings(chain)[..1] == [Encode(ROOT)];
  }
}
