/** The root of a list: its items are stored under the RLP of their indices, which are visited in
    the order of the encodings rather than in the order of the numbers. */
module OrderedRoot {
  import opened Primitives
  import opened Rlp
  import opened HexPrefixes
  import opened Tries
  import opened SpineSteps
  import opened BuilderInvariant
  import opened Traversal
  import opened Retention
  import opened HashBuilders

  /** The index visited in round i. */
  function AdjustIndex(i: nat, len: nat): (index: nat)
    requires i < len
    ensures index < len
  {
    if i > 0x7F then i else if i == 0x7F || i + 1 == len then 0 else i + 1
  }

  /** The round in which an index is visited. */
  function VisitRound(index: nat, len: nat): (i: nat)
    requires index < len
    ensures i < len && AdjustIndex(i, len) == index
    ensures forall j: nat | j < len && AdjustIndex(j, len) == index :: j == i
  {
    if index > 0x7F then index
    else if index > 0 then index - 1
    else if len > 0x80 then 0x7F else len - 1
  }

  /** The RLP of an unsigned integer. */
  function EncodeUint(x: nat): (r: Bytes)
    requires x < USIZE_LIMIT
    ensures r == EncodeString(BigEndian(x))
  {
    UintIsString(x);
    if x == 0 then [EMPTY_STRING_CODE]
    else if x < EMPTY_STRING_CODE then [x]
    else [EMPTY_STRING_CODE + |BigEndian(x)|] + BigEndian(x)
  }

  lemma UintIsString(x: nat)
    requires x < USIZE_LIMIT
    ensures x == 0 ==> EncodeString(BigEndian(x)) == [EMPTY_STRING_CODE]
    ensures 0 < x < EMPTY_STRING_CODE ==> EncodeString(BigEndian(x)) == [x]
    ensures x >= EMPTY_STRING_CODE ==>
              && 1 <= |BigEndian(x)| <= 8
              && EncodeString(BigEndian(x)) == [EMPTY_STRING_CODE + |BigEndian(x)|] + BigEndian(x)
  {
    if 0 < x < 256 {
      assert BigEndian(x / 256) == [];
      assert BigEndian(x) == [x];
    } else if x >= 256 {
      BigEndianValue(x / 256);
      assert |BigEndian(x)| == |BigEndian(x / 256)| + 1 >= 2;
      hide BigEndian;
      BigEndianUsize(x);
    }
  }

  function IndexKey(x: nat): (k: Nibbles)
    requires x < USIZE_LIMIT
  {
    Unpack(EncodeUint(x))
  }

  // ----- The order of the keys -----

  /** a comes before b at position n, and neither is a prefix of the other. */
  predicate Before(a: Bytes, b: Bytes, n: nat) {
    n < |a| && n < |b| && a[..n] == b[..n] && a[n] < b[n]
  }

  lemma {:induction false} UnpackPrefix(a: Bytes, b: Bytes, n: nat)
    requires n <= |a| && n <= |b| && a[..n] == b[..n]
    ensures |Unpack(a)| == 2 * |a| && |Unpack(b)| == 2 * |b| && Unpack(a)[..2 * n] == Unpack(b)[..2 * n]
  {
    UnpackLength(a);
    UnpackLength(b);
    if n > 0 {
      AgreeOn(a, b, n);
      assert a[1..][..n - 1] == a[..n][1..] == b[..n][1..] == b[1..][..n - 1];
      UnpackPrefix(a[1..], b[1..], n - 1);
      var u, v := Unpack(a[1..]), Unpack(b[1..]);
      assert Unpack(a)[..2 * n] == [a[0] / 16, a[0] % 16] + u[..2 * (n - 1)];
      assert Unpack(b)[..2 * n] == [b[0] / 16, b[0] % 16] + v[..2 * (n - 1)];
    }
  }

  /** The order of byte strings is the order of their nibbles. */
  lemma UnpackFollows(a: Bytes, b: Bytes, n: nat)
    requires Before(a, b, n)
    ensures Follows(Unpack(a), Unpack(b))
  {
    hide Unpack;
    var u, v := Unpack(a), Unpack(b);
    UnpackPrefix(a, b, n);
    UnpackAt(a, n);
    UnpackAt(b, n);
    if a[n] / 16 != b[n] / 16 {
      LessAt(u, v, 2 * n);
    } else {
      var p := 2 * n + 1;
      assert u[..p] == u[..2 * n] + [u[2 * n]] && v[..p] == v[..2 * n] + [v[2 * n]];
      LessAt(u, v, p);
    }
  }

  lemma {:induction false} BigEndianMonotone(x: nat, y: nat)
    requires x < y
    ensures |BigEndian(x)| <= |BigEndian(y)|
  {
    if x > 0 && x / 256 < y / 256 {
      BigEndianMonotone(x / 256, y / 256);
    }
  }

  lemma {:induction false} BigEndianBefore(x: nat, y: nat) returns (n: nat)
    requires x < y && |BigEndian(x)| == |BigEndian(y)|
    ensures Before(BigEndian(x), BigEndian(y), n)
  {
    assert x > 0;
    var a, b := BigEndian(x / 256), BigEndian(y / 256);
    assert BigEndian(x) == a + [x % 256] && BigEndian(y) == b + [y % 256];
    if x / 256 == y / 256 {
      n := |a|;
    } else {
      n := BigEndianBefore(x / 256, y / 256);
    }
  }

  lemma LongUintsFollow(x: nat, y: nat) returns (n: nat)
    requires 0x80 <= x < y < USIZE_LIMIT
    ensures Before(EncodeUint(x), EncodeUint(y), n)
  {
    UintIsString(x);
    UintIsString(y);
    BigEndianMonotone(x, y);
    hide BigEndian, EncodeString;
    n := 0;
    if |BigEndian(x)| == |BigEndian(y)| {
      n := BigEndianBefore(x, y);
      BeforeWithHead(EMPTY_STRING_CODE + |BigEndian(x)|, BigEndian(x), BigEndian(y), n);
      n := n + 1;
    }
  }

  lemma BeforeWithHead(head: Byte, a: Bytes, b: Bytes, n: nat)
    requires Before(a, b, n)
    ensures Before([head] + a, [head] + b, n + 1)
  {
    assert ([head] + a)[..n + 1] == [head] + a[..n] && ([head] + b)[..n + 1] == [head] + b[..n];
  }

  /** Each round's key follows the one before: keys ascend and none is a prefix of another. */
  lemma KeysFollow(i: nat, j: nat, len: nat)
    requires i < j < len < USIZE_LIMIT
    ensures Follows(IndexKey(AdjustIndex(i, len)), IndexKey(AdjustIndex(j, len)))
  {
    var x, y := AdjustIndex(i, len), AdjustIndex(j, len);
    var n := 0;
    if 0x80 <= x {
      n := LongUintsFollow(x, y);
    } else {
      UintIsString(x);
      UintIsString(y);
      hide BigEndian, EncodeString;
      assert Before(EncodeUint(x), EncodeUint(y), 0);
    }
    hide BigEndian, EncodeUint, AdjustIndex;
    UnpackFollows(EncodeUint(x), EncodeUint(y), n);
  }

  lemma IndexKeysDistinct(x: nat, y: nat, len: nat)
    requires x < len && y < len && len < USIZE_LIMIT && x != y
    ensures IndexKey(x) != IndexKey(y)
  {
    var i, j := VisitRound(x, len), VisitRound(y, len);
    if i < j {
      KeysFollow(i, j, len);
    } else {
      KeysFollow(j, i, len);
    }
    hide IndexKey;
    LessIrreflexive(IndexKey(x));
  }

  // ----- The entries -----

  /** The map that an ordered list stands for: item x under the key of x. */
  ghost function IndexedEntries(items: seq<Bytes>): (m: Entries)
    requires |items| < USIZE_LIMIT
  {
    if items == [] then map[]
    else
      var x := |items| - 1;
      IndexedEntries(items[..x])[IndexKey(x) := Data(items[x])]
  }

  lemma {:induction false} IndexedAt(items: seq<Bytes>, x: nat)
    requires x < |items| < USIZE_LIMIT
    ensures IndexKey(x) in IndexedEntries(items) && IndexedEntries(items)[IndexKey(x)] == Data(items[x])
  {
    hide IndexKey;
    var last := |items| - 1;
    if x < last {
      IndexedAt(items[..last], x);
      IndexKeysDistinct(x, last, |items|);
    }
  }

  lemma {:induction false} IndexedOnly(items: seq<Bytes>, k: Nibbles) returns (x: nat)
    requires |items| < USIZE_LIMIT && k in IndexedEntries(items)
    ensures x < |items| && IndexKey(x) == k
  {
    hide IndexKey;
    x := |items| - 1;
    if IndexKey(x) != k {
      x := IndexedOnly(items[..x], k);
    }
  }

  /** The map read back: item x is found under a key whose packed form is the RLP of the number x. */
  lemma IndexedItemRead(items: seq<Bytes>, m: Entries, x: nat) returns (k: Nibbles)
    requires x < |items| < USIZE_LIMIT && m == IndexedEntries(items)
    ensures k in m && |k| % 2 == 0 && IsNumber(Pack(k), x) && m[k] == Data(items[x])
  {
    k := IndexKey(x);
    hide IsNumber, IndexKey, IndexedEntries, Pack;
    IndexedAt(items, x);
    IndexKeyRead(x);
  }

  /** The map read back: it has no other keys. */
  lemma IndexedKeyRead(items: seq<Bytes>, m: Entries, k: Nibbles) returns (x: nat)
    requires |items| < USIZE_LIMIT && m == IndexedEntries(items) && k in m
    ensures x < |items| && |k| % 2 == 0 && IsNumber(Pack(k), x)
  {
    hide IsNumber, IndexKey, IndexedEntries, Pack;
    x := IndexedOnly(items, k);
    IndexKeyRead(x);
  }

  lemma IndexKeyRead(x: nat)
    requires x < USIZE_LIMIT
    ensures |IndexKey(x)| % 2 == 0 && IsNumber(Pack(IndexKey(x)), x)
  {
    hide IsNumber, BigEndian, EncodeString, EncodeUint, Pack, Unpack;
    PackUnpack(EncodeUint(x));
    UintShort(x);
    NumberRoundTrip(x);
  }

  lemma UintShort(x: nat)
    requires x < USIZE_LIMIT
    ensures |BigEndian(x)| <= 8
  {
    hide EncodeString;
    UintIsString(x);
    if x < EMPTY_STRING_CODE {
      assert BigEndian(x / 256) == [];
    }
  }

  /** The entries of the first n rounds. */
  ghost function Fed(items: seq<Bytes>, n: nat): (m: Entries)
    requires n <= |items| < USIZE_LIMIT
  {
    if n == 0 then map[]
    else
      var x := AdjustIndex(n - 1, |items|);
      Fed(items, n - 1)[IndexKey(x) := Data(items[x])]
  }

  lemma {:induction false} FedHolds(items: seq<Bytes>, n: nat, k: Nibbles)
    requires n <= |items| < USIZE_LIMIT && k in Fed(items, n)
    ensures k in IndexedEntries(items) && Fed(items, n)[k] == IndexedEntries(items)[k]
  {
    hide IndexKey, AdjustIndex, IndexedEntries;
    var x := AdjustIndex(n - 1, |items|);
    if k == IndexKey(x) {
      IndexedAt(items, x);
    } else {
      FedHolds(items, n - 1, k);
    }
  }

  lemma {:induction false} FedKey(items: seq<Bytes>, n: nat, i: nat)
    requires i < n <= |items| < USIZE_LIMIT
    ensures IndexKey(AdjustIndex(i, |items|)) in Fed(items, n)
  {
    hide IndexKey, AdjustIndex;
    if i < n - 1 {
      FedKey(items, n - 1, i);
    }
  }

  /** Every index is visited once, so the rounds together feed the whole map. */
  lemma FedAll(items: seq<Bytes>)
    requires |items| < USIZE_LIMIT
    ensures Fed(items, |items|) == IndexedEntries(items)
  {
    hide IndexKey, AdjustIndex, VisitRound, IndexedEntries, Fed;
    forall k | k in Fed(items, |items|)
      ensures k in IndexedEntries(items) && Fed(items, |items|)[k] == IndexedEntries(items)[k]
    {
      FedHolds(items, |items|, k);
    }
    forall k | k in IndexedEntries(items)
      ensures k in Fed(items, |items|)
    {
      var x := IndexedOnly(items, k);
      FedKey(items, |items|, VisitRound(x, |items|));
    }
  }

  /** The builder has been fed the first n rounds and nothing else. */
  ghost predicate Feeding(hb: HashBuilder, items: seq<Bytes>, n: nat)
    requires n <= |items| < USIZE_LIMIT
    reads hb, hb.proofRetainer
  {
    && hb.Valid() && hb.proofRetainer == null && hb.updatedBranchNodes.None?
    && hb.entries == Fed(items, n)
    && hb.key == if n == 0 then [] else IndexKey(AdjustIndex(n - 1, |items|))
  }

  method Feed(hb: HashBuilder, items: seq<Bytes>, i: nat)
    requires i < |items| < USIZE_LIMIT && Feeding(hb, items, i)
    modifies hb
    ensures Feeding(hb, items, i + 1)
  {
    hide IndexKey, AdjustIndex, PrefixFree, Encode, Follows, SpineOk, KidsOk, Latest, BranchesHashed, RecordedAll, Run;
    var index := AdjustIndex(i, |items|);
    KeyNotEmpty(index);
    if i > 0 {
      KeyNotEmpty(AdjustIndex(i - 1, |items|));
      KeysFollow(i - 1, i, |items|);
    }
    hb.AddLeaf(IndexKey(index), items[index]);
  }

  /** The root of the trie that holds item x under the RLP of x. */
  method OrderedTrieRootEncoded(items: seq<Bytes>) returns (root: Word)
    requires |items| < USIZE_LIMIT
    ensures PrefixFree(IndexedEntries(items))
    ensures root == RootHash(TrieOf(IndexedEntries(items)))
  {
    if items == [] {
      EmptyRoot();
      return EMPTY_ROOT_HASH;
    }
    hide *;
    var hb := Start(items);
    for i := 0 to |items|
      invariant fresh(hb) && Feeding(hb, items, i)
    {
      Feed(hb, items, i);
    }
    FedAll(items);
    root := Finish(hb, items);
  }

  method Start(items: seq<Bytes>) returns (hb: HashBuilder)
    requires |items| < USIZE_LIMIT
    ensures fresh(hb) && Feeding(hb, items, 0)
  {
    hb := new HashBuilder(false, null);
  }

  method Finish(hb: HashBuilder, items: seq<Bytes>) returns (root: Word)
    requires |items| < USIZE_LIMIT && Feeding(hb, items, |items|)
    modifies hb
    ensures PrefixFree(Fed(items, |items|)) && root == RootHash(TrieOf(Fed(items, |items|)))
  {
    hide PrefixFree, RootHash, TrieOf, PostOrder, RecordedAll, Run, SpineOk, KidsOk, Latest, BranchesHashed, Fed;
    root := hb.Root();
  }

  lemma KeyNotEmpty(x: nat)
    requires x < USIZE_LIMIT
    ensures IndexKey(x) != []
  {
    UnpackLength(EncodeUint(x));
    UintIsString(x);
  }

  lemma EmptyRoot()
    ensures PrefixFree(map[]) && RootHash(TrieOf(map[])) == EMPTY_ROOT_HASH
  {
  }
}
