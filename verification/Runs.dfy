/** Whole runs of the hash builder: entries in ascending order, then the root. */
module Runs {
  import opened Primitives
  import opened Tries
  import opened Traversal
  import opened SpineSteps
  import opened BuilderInvariant
  import opened Retention
  import opened HashBuilders

  datatype Entry = Entry(key: Nibbles, value: Value)

  /** Entries a builder takes: the hash of a whole trie alone, or non-empty keys each of which
      follows the one before. */
  ghost predicate Feedable(items: seq<Entry>) {
    || (|items| == 1 && items[0].key == [] && items[0].value.Hash?)
    || Ascending(items)
  }

  ghost predicate Ascending(items: seq<Entry>) {
    && (forall i | 0 <= i < |items| :: items[i].key != [])
    && (forall i | 0 < i < |items| :: Follows(items[i - 1].key, items[i].key))
  }

  /** The map of the entries. */
  ghost function EntriesOf(items: seq<Entry>): (m: Entries) {
    if items == [] then map[]
    else
      var last := |items| - 1;
      EntriesOf(items[..last])[items[last].key := items[last].value]
  }

  lemma {:induction false} AscendingEntries(items: seq<Entry>)
    requires Ascending(items)
    ensures PrefixFree(EntriesOf(items))
    ensures items != [] ==> Latest(EntriesOf(items), items[|items| - 1].key)
  {
    hide PrefixFree, Latest, Follows;
    if |items| == 0 {
      assert PrefixFree(map[]) by { NonePrefixFree(); }
    } else {
      var last := |items| - 1;
      var item := items[last];
      if last == 0 {
        assert EntriesOf(items) == map[item.key := item.value];
        Singleton(item.key, item.value);
      } else {
        AscendingEntries(items[..last]);
        AddedLatest(EntriesOf(items[..last]), items[last - 1].key, item.key, item.value);
      }
    }
  }

  lemma NonePrefixFree()
    ensures PrefixFree(map[])
  {
  }

  lemma FeedableEntries(items: seq<Entry>)
    requires Feedable(items)
    ensures PrefixFree(EntriesOf(items))
  {
    if Ascending(items) {
      AscendingEntries(items);
    } else {
      assert EntriesOf(items[..0]) == map[];
      assert EntriesOf(items) == map[items[0].key := items[0].value];
      Singleton(items[0].key, items[0].value);
    }
  }

  /** Every branch child of every branch is long enough to be hashed. */
  ghost predicate Hashed(m: Entries)
    requires PrefixFree(m)
  {
    forall p: Nibbles | At(m, p).Branch? :: HashedChildren(m, p)
  }

  // ----- Keys of a run -----

  /** Adding later entries keeps the earlier ones. */
  lemma {:induction false} EarlierKept(items: seq<Entry>, n: nat, k: Nibbles)
    requires Ascending(items) && n <= |items| && k in EntriesOf(items[..n])
    ensures k in EntriesOf(items) && EntriesOf(items)[k] == EntriesOf(items[..n])[k]
  {
    hide PrefixFree, Latest, Follows;
    if n < |items| {
      var last := |items| - 1;
      assert items[..last][..n] == items[..n];
      EarlierKept(items[..last], n, k);
      AscendingEntries(items[..last]);
      if last > 0 {
        AddedLatest(EntriesOf(items[..last]), items[last - 1].key, items[last].key, items[last].value);
      }
    } else {
      assert items[..n] == items;
    }
  }

  /** The map read back: every item is in it under its own key. */
  lemma EntryListed(items: seq<Entry>, i: nat)
    requires Feedable(items) && i < |items|
    ensures items[i].key in EntriesOf(items) && EntriesOf(items)[items[i].key] == items[i].value
  {
    var k := items[i].key;
    assert items[..i + 1][..i] == items[..i] && items[..i + 1][i] == items[i];
    assert k in EntriesOf(items[..i + 1]) && EntriesOf(items[..i + 1])[k] == items[i].value;
    if Ascending(items) {
      EarlierKept(items, i + 1, k);
    } else {
      assert items[..i + 1] == items;
    }
  }

  /** The map read back: it has no other keys. */
  lemma {:induction false} EntryOnly(items: seq<Entry>, k: Nibbles) returns (i: nat)
    requires k in EntriesOf(items)
    ensures i < |items| && items[i].key == k
  {
    i := |items| - 1;
    if items[i].key != k {
      i := EntryOnly(items[..i], k);
    }
  }

  /** A key that is not among the first n entries is the n-th or comes after it. */
  lemma {:induction false} LaterKeys(items: seq<Entry>, n: nat, k: Nibbles)
    requires Ascending(items) && n < |items|
    requires k in EntriesOf(items) && k !in EntriesOf(items[..n])
    ensures k == items[n].key || Less(items[n].key, k)
  {
    var last := |items| - 1;
    if n == last {
    } else if k == items[last].key {
      AscendingKeys(items, n, last);
    } else {
      assert items[..last][..n] == items[..n];
      LaterKeys(items[..last], n, k);
    }
  }

  lemma {:induction false} AscendingKeys(items: seq<Entry>, i: nat, j: nat)
    requires Ascending(items) && i < j < |items|
    ensures Less(items[i].key, items[j].key)
  {
    if i < j - 1 {
      AscendingKeys(items, i, j - 1);
      LessTransitive(items[i].key, items[j - 1].key, items[j].key);
    }
  }

  /** Whatever lies between two extensions of a path extends it too. */
  lemma BetweenExtensions(p: Nibbles, a: Nibbles, n: nat, next: Nibbles, k: Nibbles)
    requires p <= a && p <= k && Less(a, next) && (next == k || Less(next, k))
    requires n == CommonPrefixLength(p, next)
    ensures p <= next
  {
    if n < |p| && next != k {
      if n == |next| {
        assert next <= a;
        PrefixNotLess(next, a);
      } else {
        assert a[..n] == p[..n] == next[..n] && a[n] == p[n];
        assert k[..n] == p[..n] && k[n] == p[n];
        LessAt(a, next, n);
        LessAt(next, k, n);
      }
    }
  }

  /** Once the keys have passed a path, nothing is added under it. */
  lemma PassedFrame(items: seq<Entry>, n: nat, p: Nibbles)
    requires Ascending(items) && n < |items| && !(p <= items[n].key)
    requires PrefixFree(EntriesOf(items[..n])) && PrefixFree(EntriesOf(items)) && Inhabited(EntriesOf(items[..n]), p)
    ensures At(EntriesOf(items[..n]), p) == At(EntriesOf(items), p)
  {
    hide At, EntriesOf, PrefixFree, Ascending;
    var m, full := EntriesOf(items[..n]), EntriesOf(items);
    var a :| a in m && p <= a;
    var next := items[n].key;
    EarlierLess(items, n, a);
    forall k | k in full && p <= k
      ensures k in m
    {
      if k !in m {
        LaterKeys(items, n, k);
        BetweenExtensions(p, a, CommonPrefixLength(p, next), next, k);
      }
    }
    forall k | k in m
      ensures k in full && full[k] == m[k]
    {
      EarlierKept(items, n, k);
    }
    assert Under(m, p) == Under(full, p);
    AtFrame(m, full, p);
  }

  lemma EarlierLess(items: seq<Entry>, n: nat, a: Nibbles)
    requires Ascending(items) && n < |items| && a in EntriesOf(items[..n])
    ensures Less(a, items[n].key)
  {
    assert n > 0;
    hide PrefixFree, EntriesOf, Less;
    AscendingEntries(items[..n]);
    if a != items[n - 1].key {
      LessTransitive(a, items[n - 1].key, items[n].key);
    }
  }

  /** The records of a run can be written when those of its final trie can. */
  lemma HashedSoFar(items: seq<Entry>, n: nat)
    requires Ascending(items) && n < |items|
    requires PrefixFree(EntriesOf(items)) && Hashed(EntriesOf(items))
    ensures PrefixFree(EntriesOf(items[..n])) && BranchesHashed(EntriesOf(items[..n]), items[n].key)
  {
    AscendingEntries(items[..n]);
    hide At, EntriesOf, PrefixFree, Ascending;
    var m, full := EntriesOf(items[..n]), EntriesOf(items);
    forall p: Nibbles | At(m, p).Branch? && !(p <= items[n].key)
      ensures HashedChildren(m, p)
    {
      AtCanonical(m, p);
      PassedFrame(items, n, p);
      assert HashedChildren(full, p);
      PassedChildren(items, n, p);
    }
  }

  lemma PassedChildren(items: seq<Entry>, n: nat, p: Nibbles)
    requires Ascending(items) && n < |items| && !(p <= items[n].key)
    requires PrefixFree(EntriesOf(items[..n])) && PrefixFree(EntriesOf(items))
    requires HashedChildren(EntriesOf(items), p)
    ensures HashedChildren(EntriesOf(items[..n]), p)
  {
    hide At, EntriesOf, PrefixFree, Ascending, Encode;
    var m := EntriesOf(items[..n]);
    forall x: Nibble | At(m, p + [x]).Branch?
      ensures |Encode(At(m, p + [x]))| >= 32
    {
      AtCanonical(m, p + [x]);
      PassedFrame(items, n, p + [x]);
    }
  }

  // ----- Running the builder -----

  /** No key is longer than the retainer can look up. */
  ghost predicate KeysFit(items: seq<Entry>, keys: Option<AddedRemovedKeys>) {
    keys.Some? ==> forall i | 0 <= i < |items| :: |items[i].key| <= 64
  }

  /** The builder has been fed the first n entries. */
  ghost predicate Fed(hb: HashBuilder, items: seq<Entry>, n: nat)
    requires n <= |items|
    reads hb, hb.proofRetainer
  {
    && hb.Valid()
    && hb.entries == EntriesOf(items[..n])
    && hb.key == (if n == 0 then [] else items[n - 1].key)
    && (hb.proofRetainer != null ==> KeysFit(items, hb.proofRetainer.Cfg().keys))
  }

  method Feed(hb: HashBuilder, items: seq<Entry>, n: nat)
    requires Feedable(items) && n < |items| && Fed(hb, items, n) && PrefixFree(EntriesOf(items))
    requires hb.updatedBranchNodes.Some? ==> Hashed(EntriesOf(items))
    modifies hb, hb.proofRetainer
    ensures Fed(hb, items, n + 1)
    ensures hb.updatedBranchNodes.Some? == old(hb.updatedBranchNodes.Some?)
    ensures hb.proofRetainer != null ==> hb.proofRetainer.Cfg() == old(hb.proofRetainer.Cfg())
  {
    hide EntriesOf, SpineOk, KidsOk, Latest, BranchesHashed, Hashed, RecordedAll, Run, PrefixFree, Follows;
    EntriesNext(items, n);
    if Ascending(items) && hb.updatedBranchNodes.Some? {
      HashedSoFar(items, n);
    }
    match items[n].value
    case Data(bytes) =>
      hb.AddLeaf(items[n].key, bytes);
    case Hash(word, stored) =>
      hb.AddBranch(items[n].key, word, stored);
  }

  lemma EntriesNext(items: seq<Entry>, n: nat)
    requires n < |items|
    ensures EntriesOf(items[..n + 1]) == EntriesOf(items[..n])[items[n].key := items[n].value]
    ensures EntriesOf([]) == map[]
  {
    assert items[..n + 1][..n] == items[..n];
  }

  method Start(items: seq<Entry>, retainUpdates: bool, retainer: ProofRetainer?) returns (hb: HashBuilder)
    requires retainer != null ==> retainer.View() == NOTHING_RETAINED && KeysFit(items, retainer.Cfg().keys)
    ensures fresh(hb) && hb.proofRetainer == retainer && hb.updatedBranchNodes.Some? == retainUpdates
    ensures Fed(hb, items, 0)
  {
    hb := new HashBuilder(retainUpdates, retainer);
  }

  /** A whole run gives the root hash of the trie of the entries, the records of its kept branches
      and the nodes the retainer is to keep.  With records on it does so when the branch
      children of the final trie are long enough to be hashed.  (That the map is prefix-free is
      FeedableEntries.) */
  method RunBuilder(items: seq<Entry>, retainUpdates: bool, retainer: ProofRetainer?)
    returns (root: Word, updates: Option<Updates>)
    requires Feedable(items) && PrefixFree(EntriesOf(items))
    requires retainUpdates ==> Hashed(EntriesOf(items))
    requires retainer != null ==> retainer.View() == NOTHING_RETAINED && KeysFit(items, retainer.Cfg().keys)
    modifies retainer
    ensures root == RootHash(TrieOf(EntriesOf(items)))
    ensures updates == if retainUpdates then Some(RecordedAll(PostOrder(TrieOf(EntriesOf(items)), []))) else None
    ensures retainer != null ==>
              && retainer.Cfg() == old(retainer.Cfg())
              && var nodes := Run(retainer.Cfg(), PostOrder(TrieOf(EntriesOf(items)), [])).nodes;
                 retainer.proofNodes == if root == EMPTY_ROOT_HASH then nodes[[] := [EMPTY_STRING_CODE]] else nodes
  {
    hide *;
    var hb := Start(items, retainUpdates, retainer);
    for i := 0 to |items|
      invariant fresh(hb) && hb.proofRetainer == retainer && hb.updatedBranchNodes.Some? == retainUpdates
      invariant Fed(hb, items, i)
      invariant retainer != null ==> retainer.Cfg() == old(retainer.Cfg())
    {
      Feed(hb, items, i);
    }
    root := Finish(hb, items);
    updates := hb.updatedBranchNodes;
  }

  method Finish(hb: HashBuilder, items: seq<Entry>) returns (root: Word)
    requires Fed(hb, items, |items|) && PrefixFree(EntriesOf(items))
    requires hb.updatedBranchNodes.Some? ==> Hashed(EntriesOf(items))
    modifies hb, hb.proofRetainer
    ensures root == RootHash(TrieOf(EntriesOf(items)))
    ensures hb.updatedBranchNodes.Some? == old(hb.updatedBranchNodes.Some?)
    ensures hb.updatedBranchNodes.Some? ==>
              hb.updatedBranchNodes.value == RecordedAll(PostOrder(TrieOf(EntriesOf(items)), []))
    ensures hb.proofRetainer != null ==>
              && hb.proofRetainer.Cfg() == old(hb.proofRetainer.Cfg())
              && var nodes := Run(hb.proofRetainer.Cfg(), PostOrder(TrieOf(EntriesOf(items)), [])).nodes;
                 hb.proofRetainer.proofNodes ==
                   if root == EMPTY_ROOT_HASH then nodes[[] := [EMPTY_STRING_CODE]] else nodes
  {
    hide EntriesOf, SpineOk, KidsOk, Latest, HashedChildren, RecordedAll, Run, PrefixFree, PostOrder;
    hide TrieOf, RootHash, At;
    assert items[..|items|] == items;
    root := hb.Root();
  }
}
