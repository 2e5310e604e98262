/** The storage root: slots in any order are sorted by key and fed to the builder. */
module StorageRoot {
  import opened Primitives
  import opened Rlp
  import opened HexPrefixes
  import opened Tries
  import opened SpineSteps
  import opened OrderedRoot
  import opened Runs

  const U256_LIMIT: nat := 0x1_0000000000000000_0000000000000000_0000000000000000_0000000000000000

  /** A 256-bit value. */
  type U256 = n: nat | n < U256_LIMIT

  /** A hashed slot key and its value. */
  type Slot = (Word, U256)

  /** The byte order of keys. */
  predicate KeyBefore(a: Bytes, b: Bytes) {
    a != [] && b != [] && (a[0] < b[0] || (a[0] == b[0] && KeyBefore(a[1..], b[1..])))
  }

  lemma {:induction false} KeyBeforeAt(a: Bytes, b: Bytes) returns (n: nat)
    requires KeyBefore(a, b)
    ensures Before(a, b, n)
  {
    n := 0;
    if a[0] == b[0] {
      var k := KeyBeforeAt(a[1..], b[1..]);
      n := k + 1;
      assert a[..n] == [a[0]] + a[1..][..k] && b[..n] == [b[0]] + b[1..][..k];
    }
  }

  lemma {:induction false} KeyBeforeTotal(a: Bytes, b: Bytes)
    requires |a| == |b| && a != b
    ensures KeyBefore(a, b) || KeyBefore(b, a)
  {
    if a[0] == b[0] {
      assert a == [a[0]] + a[1..] && b == [b[0]] + b[1..];
      KeyBeforeTotal(a[1..], b[1..]);
    }
  }

  lemma {:induction false} KeyBeforeTransitive(a: Bytes, b: Bytes, c: Bytes)
    requires KeyBefore(a, b) && KeyBefore(b, c)
    ensures KeyBefore(a, c)
  {
    if a[0] == b[0] == c[0] {
      KeyBeforeTransitive(a[1..], b[1..], c[1..]);
    }
  }

  /** The trie entry of a slot: the value's RLP under the nibbles of the key. */
  function EntryOf(s: Slot): (e: Entry) {
    Entry(Unpack(s.0), Data(EncodeString(BigEndian(s.1))))
  }

  function EntriesFor(storage: seq<Slot>): (r: seq<Entry>)
    ensures |r| == |storage| && forall i | 0 <= i < |r| :: r[i] == EntryOf(storage[i])
  {
    seq(|storage|, i requires 0 <= i < |storage| => EntryOf(storage[i]))
  }

  /** No key occurs twice. */
  ghost predicate DistinctKeys(storage: seq<Slot>) {
    forall i, j | 0 <= i < j < |storage| :: storage[i].0 != storage[j].0
  }

  ghost predicate Sorted(storage: seq<Slot>) {
    forall i, j | 0 <= i < j < |storage| :: KeyBefore(storage[i].0, storage[j].0)
  }

  // ----- The map of the slots -----

  /** The slots as a map, whatever their order. */
  ghost predicate Holds(m: Entries, storage: seq<Slot>) {
    && (forall s | s in storage :: EntryOf(s).key in m && m[EntryOf(s).key] == EntryOf(s).value)
    && (forall k | k in m :: exists s | s in storage :: EntryOf(s).key == k)
  }

  lemma {:induction false} DistinctHolds(storage: seq<Slot>)
    requires DistinctKeys(storage)
    ensures Holds(EntriesOf(EntriesFor(storage)), storage)
  {
    if storage == [] {
      assert EntriesFor(storage) == [];
    } else {
      var last := |storage| - 1;
      DistinctHolds(storage[..last]);
      LastKeyNew(storage);
      hide EntryOf, Holds, DistinctKeys;
      LastEntry(storage);
      HoldsNext(EntriesOf(EntriesFor(storage[..last])), storage[..last], storage[last]);
    }
  }

  lemma LastEntry(storage: seq<Slot>)
    requires storage != []
    ensures var last := |storage| - 1;
            && EntriesOf(EntriesFor(storage)) ==
               EntriesOf(EntriesFor(storage[..last]))[EntryOf(storage[last]).key := EntryOf(storage[last]).value]
            && storage == storage[..last] + [storage[last]]
  {
    hide EntryOf;
    var last := |storage| - 1;
    assert EntriesFor(storage[..last]) == EntriesFor(storage)[..last];
  }

  lemma LastKeyNew(storage: seq<Slot>)
    requires storage != [] && DistinctKeys(storage)
    ensures forall s | s in storage[..|storage| - 1] :: EntryOf(s).key != EntryOf(storage[|storage| - 1]).key
  {
    var last := |storage| - 1;
    forall s | s in storage[..last]
      ensures EntryOf(s).key != EntryOf(storage[last]).key
    {
      var i :| 0 <= i < last && storage[i] == s;
      KeysDiffer(s.0, storage[last].0);
    }
  }

  lemma KeysDiffer(a: Word, b: Word)
    requires a != b
    ensures Unpack(a) != Unpack(b)
  {
    KeyBeforeTotal(a, b);
    if KeyBefore(a, b) {
      var n := KeyBeforeAt(a, b);
      UnpackFollows(a, b, n);
    } else {
      var n := KeyBeforeAt(b, a);
      UnpackFollows(b, a, n);
    }
    hide Unpack;
    LessIrreflexive(Unpack(a));
  }

  lemma HoldsNext(m: Entries, rest: seq<Slot>, s: Slot)
    requires Holds(m, rest) && forall t | t in rest :: EntryOf(t).key != EntryOf(s).key
    ensures Holds(m[EntryOf(s).key := EntryOf(s).value], rest + [s])
  {
    hide EntryOf;
    assert s in rest + [s];
    forall k | k in m
      ensures exists t | t in rest + [s] :: EntryOf(t).key == k
    {
      var t :| t in rest && EntryOf(t).key == k;
      assert t in rest + [s];
    }
  }

  /** The map that is hashed, read back: the value of a slot is found, as the RLP of a number, under
      the key whose packed form is the slot's. */
  lemma SlotRead(storage: seq<Slot>, m: Entries, s: Slot) returns (k: Nibbles)
    requires DistinctKeys(storage) && m == EntriesOf(EntriesFor(storage)) && s in storage
    ensures k in m && |k| == 64 && Pack(k) == s.0 && m[k].Data? && IsNumber(m[k].bytes, s.1)
  {
    DistinctHolds(storage);
    hide IsNumber, EntriesOf, DistinctKeys;
    k := EntryOf(s).key;
    EntryRead(s);
    assert k in m && m[k] == EntryOf(s).value;
  }

  /** The map that is hashed, read back: it has no other keys. */
  lemma SlotKeyRead(storage: seq<Slot>, m: Entries, k: Nibbles) returns (s: Slot)
    requires DistinctKeys(storage) && m == EntriesOf(EntriesFor(storage)) && k in m
    ensures s in storage && |k| == 64 && Pack(k) == s.0
  {
    DistinctHolds(storage);
    hide IsNumber, EntriesOf, DistinctKeys;
    s :| s in storage && EntryOf(s).key == k;
    EntryRead(s);
  }

  lemma EntryRead(s: Slot)
    ensures var e := EntryOf(s);
            |e.key| == 64 && Pack(e.key) == s.0 && e.value.Data? && IsNumber(e.value.bytes, s.1)
  {
    hide IsNumber, BigEndian, EncodeString, Pack, Unpack;
    PackUnpack(s.0);
    U256Fits(s.1);
    NumberRoundTrip(s.1);
  }

  lemma U256Fits(n: U256)
    ensures |BigEndian(n)| <= 32
  {
    assert Pow256(32) == U256_LIMIT by {
      assert Pow256(2) == 0x1_0000;
      assert Pow256(4) == 0x1_0000_0000;
      assert Pow256(6) == 0x1_0000_0000_0000;
      assert Pow256(8) == 0x1_0000000000000000;
      Pow256Sum(8, 8);
      Pow256Sum(16, 16);
    }
    BigEndianLength(n, 32);
  }

  lemma {:induction false} Pow256Sum(a: nat, b: nat)
    ensures Pow256(a + b) == Pow256(a) * Pow256(b)
  {
    if b > 0 {
      Pow256Sum(a, b - 1);
      Scaled(Pow256(a), Pow256(b - 1), 0);
    }
  }

  lemma SortedAscending(storage: seq<Slot>)
    requires Sorted(storage)
    ensures Ascending(EntriesFor(storage))
  {
    var items := EntriesFor(storage);
    forall i | 0 <= i < |items|
      ensures items[i].key != []
    {
      UnpackLength(storage[i].0);
    }
    forall i | 0 < i < |items|
      ensures Follows(items[i - 1].key, items[i].key)
    {
      var n := KeyBeforeAt(storage[i - 1].0, storage[i].0);
      UnpackFollows(storage[i - 1].0, storage[i].0, n);
    }
  }

  /** At most one map holds given slots. */
  lemma HoldsUnique(a: Entries, b: Entries, storage: seq<Slot>)
    requires Holds(a, storage) && Holds(b, storage)
    ensures a == b
  {
  }

  // ----- Sorting and building -----

  /** Slots with keys in ascending order, where a key may be repeated. */
  ghost predicate Ordered(storage: seq<Slot>) {
    forall i, j | 0 <= i < j < |storage| :: KeyAtMost(storage[i].0, storage[j].0)
  }

  predicate KeyAtMost(a: Bytes, b: Bytes) {
    a == b || KeyBefore(a, b)
  }

  lemma TailAfter(sorted: seq<Slot>, s: Slot, i: nat, j: nat)
    requires Ordered(sorted) && i <= j < |sorted| && !KeyBefore(sorted[i].0, s.0)
    ensures KeyAtMost(s.0, sorted[j].0)
  {
    var a, b, c := s.0, sorted[i].0, sorted[j].0;
    assert i < j ==> KeyAtMost(b, c);
    hide KeyBefore, Ordered;
    if a != b {
      KeyBeforeTotal(a, b);
    }
    if KeyBefore(a, b) && KeyBefore(b, c) {
      KeyBeforeTransitive(a, b, c);
    }
  }

  lemma InsertedOrdered(sorted: seq<Slot>, s: Slot, i: nat)
    requires Ordered(sorted) && i <= |sorted|
    requires forall j | 0 <= j < i :: KeyBefore(sorted[j].0, s.0)
    requires i < |sorted| ==> !KeyBefore(sorted[i].0, s.0)
    ensures Ordered(sorted[..i] + [s] + sorted[i..])
  {
    hide KeyBefore;
    forall j | i <= j < |sorted|
      ensures KeyAtMost(s.0, sorted[j].0)
    {
      TailAfter(sorted, s, i, j);
    }
  }

  method Insert(sorted: seq<Slot>, s: Slot) returns (r: seq<Slot>)
    requires Ordered(sorted)
    ensures Ordered(r) && multiset(r) == multiset(sorted) + multiset{s}
  {
    var i := 0;
    while i < |sorted| && KeyBefore(sorted[i].0, s.0)
      invariant i <= |sorted| && forall j | 0 <= j < i :: KeyBefore(sorted[j].0, s.0)
    {
      i := i + 1;
    }
    r := sorted[..i] + [s] + sorted[i..];
    InsertedOrdered(sorted, s, i);
    hide Ordered, KeyBefore;
    assert sorted == sorted[..i] + sorted[i..];
  }

  method Sort(storage: seq<Slot>) returns (r: seq<Slot>)
    ensures Ordered(r) && multiset(r) == multiset(storage)
  {
    hide KeyAtMost;
    r := [];
    for i := 0 to |storage|
      invariant Ordered(r) && multiset(r) == multiset(storage[..i])
    {
      r := Insert(r, storage[i]);
      assert storage[..i + 1] == storage[..i] + [storage[i]];
    }
    assert storage[..|storage|] == storage;
  }

  /** Sorting distinct keys leaves them distinct, so they ascend strictly. */
  lemma OrderedIsSorted(r: seq<Slot>, storage: seq<Slot>)
    requires Ordered(r) && multiset(r) == multiset(storage) && DistinctKeys(storage)
    ensures Sorted(r)
  {
    PermutedDistinct(r, storage);
    hide KeyBefore;
    forall i, j | 0 <= i < j < |r|
      ensures KeyBefore(r[i].0, r[j].0)
    {
      assert KeyAtMost(r[i].0, r[j].0);
    }
  }

  /** A permutation of slots with distinct keys has distinct keys. */
  lemma {:induction false} PermutedDistinct(a: seq<Slot>, b: seq<Slot>)
    requires multiset(a) == multiset(b) && DistinctKeys(b)
    ensures DistinctKeys(a)
  {
    if a != [] {
      var i, rest := TakeOut(a, b);
      RestDistinct(b, i, rest);
      PermutedDistinct(a[1..], rest);
      forall t | t in a[1..]
        ensures t.0 != a[0].0
      {
        assert t in multiset(rest);
      }
    }
  }

  lemma TakeOut(a: seq<Slot>, b: seq<Slot>) returns (i: nat, rest: seq<Slot>)
    requires multiset(a) == multiset(b) && a != []
    ensures i < |b| && b[i] == a[0] && rest == b[..i] + b[i + 1..] && multiset(a[1..]) == multiset(rest)
  {
    var s := a[0];
    assert s in multiset(a);
    i :| 0 <= i < |b| && b[i] == s;
    rest := b[..i] + b[i + 1..];
    WithoutFirst(a);
    WithoutOne(b, i);
  }

  lemma WithoutFirst(a: seq<Slot>)
    requires a != []
    ensures multiset(a[1..]) == multiset(a) - multiset{a[0]}
  {
    assert a == [a[0]] + a[1..];
  }

  lemma WithoutOne(b: seq<Slot>, i: nat)
    requires i < |b|
    ensures multiset(b[..i] + b[i + 1..]) == multiset(b) - multiset{b[i]}
  {
    assert b == b[..i] + [b[i]] + b[i + 1..];
  }

  lemma RestDistinct(b: seq<Slot>, i: nat, rest: seq<Slot>)
    requires i < |b| && DistinctKeys(b) && rest == b[..i] + b[i + 1..]
    ensures DistinctKeys(rest) && forall t | t in rest :: t.0 != b[i].0
  {
    forall k | 0 <= k < |rest|
      ensures rest[k].0 != b[i].0
    {
      assert rest[k] == if k < i then b[k] else b[k + 1];
    }
  }

  /** The storage root is that of the map of the slots, whatever order they come in; a key that
      occurs twice makes the source panic. */
  method StorageRootUnsorted(storage: seq<Slot>) returns (root: Word)
    requires DistinctKeys(storage)
    ensures PrefixFree(EntriesOf(EntriesFor(storage)))
    ensures root == RootHash(TrieOf(EntriesOf(EntriesFor(storage))))
  {
    var sorted := Sort(storage);
    OrderedIsSorted(sorted, storage);
    PermutedDistinct(sorted, storage);
    SortedAscending(sorted);
    hide PrefixFree, TrieOf, RootHash, EntriesOf, Holds, Sorted, Ordered, DistinctKeys, EntryOf;
    var items := EntriesFor(sorted);
    AscendingEntries(items);
    var updates;
    root, updates := RunBuilder(items, false, null);
    SameEntries(sorted, storage);
  }

  /** The order of the slots does not matter. */
  lemma SameEntries(a: seq<Slot>, b: seq<Slot>)
    requires DistinctKeys(a) && DistinctKeys(b) && multiset(a) == multiset(b)
    ensures EntriesOf(EntriesFor(a)) == EntriesOf(EntriesFor(b))
  {
    DistinctHolds(a);
    DistinctHolds(b);
    hide Holds, DistinctKeys, EntriesOf, EntryOf;
    SamePermuted(EntriesOf(EntriesFor(a)), a, b);
    HoldsUnique(EntriesOf(EntriesFor(a)), EntriesOf(EntriesFor(b)), b);
  }

  lemma SamePermuted(m: Entries, a: seq<Slot>, b: seq<Slot>)
    requires Holds(m, a) && multiset(a) == multiset(b)
    ensures Holds(m, b)
  {
    forall s: Slot
      ensures s in a <==> s in b
    {
      assert s in multiset(a) <==> s in multiset(b);
    }
  }
}
