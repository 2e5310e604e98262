/** Three entries that a run with records cannot take: the branch below the root's nibble 0 has 22
    bytes, so its hash cannot be read off its reference. */
module ShortChildren {
  import opened Primitives
  import opened Rlp
  import opened HexPrefixes
  import opened Tries
  import opened TrieNodes
  import opened BuilderInvariant
  import opened Runs

  const ITEMS: seq<Entry> := [Entry([0, 0], Data([1])), Entry([0, 1], Data([1])), Entry([1], Data([1]))]
  const ENTRIES: Entries := map[[0, 0] := Data([1]), [0, 1] := Data([1]), [1] := Data([1])]

  lemma ItemsAscend()
    ensures Ascending(ITEMS) && EntriesOf(ITEMS) == ENTRIES && PrefixFree(ENTRIES)
  {
    LessAt([0, 0], [0, 1], 1);
    LessAt([0, 1], [1], 0);
    assert ITEMS[..2][..1][..0] == [];
    assert EntriesOf(ITEMS[..2][..1]) == map[[0, 0] := Data([1])];
    assert EntriesOf(ITEMS[..2]) == map[[0, 0] := Data([1]), [0, 1] := Data([1])];
  }

  lemma KeysUnder(x: Nibble, k: Nibbles)
    ensures var p: Nibbles := [0, x];
            k in ENTRIES && p <= k <==> x < 2 && k == p
  {
    var p: Nibbles := [0, x];
    var a: Nibbles, b: Nibbles, c: Nibbles := [0, 0], [0, 1], [1];
    assert a in ENTRIES && b in ENTRIES;
    if k in ENTRIES {
      assert k == a || k == b || k == c;
      assert p <= a ==> p == a;
      assert p <= b ==> p == b;
    }
    if x < 2 {
      assert p == a || p == b;
    }
  }

  lemma ChildSizes(x: Nibble)
    requires PrefixFree(ENTRIES)
    ensures var p: Nibbles := [0, x];
            |Reference(At(ENTRIES, p))| == if x < 2 then 3 else 1
  {
    var p: Nibbles := [0, x];
    KeysUnder(x, p);
    forall k: Nibbles
      ensures k in ENTRIES && p <= k <==> x < 2 && k == p
    {
      KeysUnder(x, k);
    }
    hide At, Encode, PrefixFree;
    if x < 2 {
      assert ENTRIES[p] == Data([1]);
      AtSingle(ENTRIES, p, p);
      LeafSize();
      assert p[2..] == [];
    } else {
      AtCanonical(ENTRIES, p);
      EmptySize();
    }
  }

  lemma EmptySize()
    ensures |Encode(Empty)| == 1
  {
  }

  lemma LeafSize()
    ensures |Encode(Leaf([], [1]))| == 3
  {
    assert HexPrefix([], true) == [0x20];
    ConcatTwo([0x20], [1]);
    assert EncodeString([0x20]) == [0x20] && EncodeString([1]) == [1];
  }

  /** The run's entries are in order, but the final trie has a branch child too short to be hashed. */
  lemma ShortChildUnhashed()
    ensures Feedable(ITEMS) && PrefixFree(EntriesOf(ITEMS))
    ensures At(EntriesOf(ITEMS), []).Branch? && |Encode(At(EntriesOf(ITEMS), [0]))| == 22
    ensures !Hashed(EntriesOf(ITEMS))
  {
    hide At, Encode, PrefixFree, Inhabited, EntriesOf;
    ItemsAscend();
    var m := ENTRIES;
    var root, child: Nibbles := [], [0];
    var one: Nibbles := [1];
    assert root + [0] == child && root + [1] == one && child + [0] == [0, 0] && child + [1] == [0, 1];
    PathsInhabited();
    AtBranch(m, root, 0, 1);
    AtBranch(m, child, 0, 1);
    BranchSize(m, Below(m, child));
    assert !HashedChildren(m, root);
  }

  lemma PathsInhabited()
    ensures Inhabited(ENTRIES, [0]) && Inhabited(ENTRIES, [1])
    ensures Inhabited(ENTRIES, [0, 0]) && Inhabited(ENTRIES, [0, 1])
  {
    var a: Nibbles, b: Nibbles, c: Nibbles := [0, 0], [0, 1], [1];
    assert a in ENTRIES && b in ENTRIES && c in ENTRIES;
    var p: Nibbles := [0];
    assert p <= a && a <= a && b <= b && c <= c;
  }

  lemma BranchSize(m: Entries, ch: seq<Trie>)
    requires m == ENTRIES && PrefixFree(m) && ch == Below(m, [0])
    ensures |Encode(Branch(ch))| == 22
  {
    forall i: Nibble
      ensures |Reference(ch[i])| == if i < 2 then 3 else 1
    {
      ChildSizes(i);
      var q: Nibbles := [0];
      assert q + [i] == [0, i];
      assert ch[i] == At(m, q + [i]);
    }
    SizeFromChildren(ch);
  }

  lemma SizeFromChildren(ch: seq<Trie>)
    requires |ch| == 16 && forall i: Nibble :: |Reference(ch[i])| == if i < 2 then 3 else 1
    ensures |Encode(Branch(ch))| == 22
  {
    var items := seq(|ch|, i requires 0 <= i < |ch| => Reference(ch[i])) + [[EMPTY_STRING_CODE]];
    assert Encode(Branch(ch)) == EncodeList(items);
    hide Encode, Reference;
    forall i | 0 <= i < 16
      ensures |items[i]| == if i < 2 then 3 else 1
    {
      var x: Nibble := i;
      assert items[i] == Reference(ch[x]);
    }
    assert |items[16]| == 1;
    OneByteEach(items[2..]);
    assert items[1..][1..] == items[2..] && items[1..][0] == items[1];
    assert |Concat(items)| == 3 + |Concat(items[1..])| == 6 + |Concat(items[2..])|;
  }
}
