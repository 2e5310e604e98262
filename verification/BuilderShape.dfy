/** The sizes of the builder's stack and masks between two keys. */
module BuilderShape {
  import opened Primitives
  import opened Masks
  import opened Tries
  import opened Spines
  import opened SpineSteps
  import opened HashBuilders
  import opened Runs

  /** The number of nibbles in all masks. */
  ghost function Marks(masks: seq<Mask>): (n: nat) {
    if masks == [] then 0 else Marks(masks[..|masks| - 1]) + Rank(masks[|masks| - 1], 16)
  }

  lemma {:induction false} ForestSize(m: Entries, cur: Nibbles, masks: seq<Mask>)
    requires PrefixFree(m) && |masks| <= |cur|
    ensures |Forest(m, cur, masks)| == Marks(masks)
  {
    if masks != [] {
      ForestSize(m, cur, masks[..|masks| - 1]);
    }
  }

  /** With prev the greatest key before the latest one, the masks reach one level below the point
      where the two part. */
  lemma MasksReach(m: Entries, prev: Nibbles, key: Nibbles, masks: seq<Mask>)
    requires PrefixFree(m) && Latest(m, key) && prev in m && prev != key
    requires forall k | k in m && k != key && k != prev :: Less(k, prev)
    requires MarksSiblings(m, key, masks) && (masks != [] ==> masks[|masks| - 1] != {})
    ensures |masks| == CommonPrefixLength(prev, key) + 1
  {
    var c := CommonPrefixLength(prev, key);
    LatestParts(m, prev, key);
    hide Less, PrefixFree, Latest, MarksSiblings, CommonPrefixLength;
    MarkedWhereParting(m, prev, key, masks, c);
    var x, k := LastMarked(m, key, masks);
    if c < |masks| - 1 {
      NoKeyBetween(prev, key, k, |masks| - 1, x);
    }
  }

  lemma LatestParts(m: Entries, prev: Nibbles, key: Nibbles)
    requires PrefixFree(m) && Latest(m, key) && prev in m && prev != key
    ensures Less(prev, key) && !(prev <= key)
    ensures var c := CommonPrefixLength(prev, key); c < |prev| && c < |key| && prev[c] != key[c]
  {
  }

  lemma MarkedWhereParting(m: Entries, prev: Nibbles, key: Nibbles, masks: seq<Mask>, c: nat)
    requires prev in m && MarksSiblings(m, key, masks)
    requires c < |prev| && c < |key| && prev[..c] == key[..c] && prev[c] != key[c]
    ensures c < |masks|
  {
    assert key[..c] + [prev[c]] <= prev;
    assert Sibling(m, key, c, prev[c]);
    assert Bit(masks, c, prev[c]);
  }

  /** A key below the last marked level. */
  lemma LastMarked(m: Entries, key: Nibbles, masks: seq<Mask>) returns (x: Nibble, k: Nibbles)
    requires MarksSiblings(m, key, masks) && masks != [] && masks[|masks| - 1] != {}
    ensures k in m && key[..|masks| - 1] + [x] <= k && x != key[|masks| - 1]
  {
    var l := |masks| - 1;
    x :| x in masks[l];
    assert Bit(masks, l, x);
    assert Sibling(m, key, l, x);
    k :| k in m && key[..l] + [x] <= k;
  }

  lemma NoKeyBetween(prev: Nibbles, key: Nibbles, k: Nibbles, l: nat, x: Nibble)
    requires CommonPrefixLength(prev, key) < l < |key| && Less(prev, key) && !(prev <= key)
    requires key[..l] + [x] <= k && x != key[l]
    ensures k != key && k != prev && !Less(k, prev)
  {
    var c := CommonPrefixLength(prev, key);
    assert k[l] == x && k[..l] == key[..l];
    AgreeOn(k, key, l);
    assert k[..c] == key[..c] == prev[..c];
    LessAt(k, prev, c);
  }

  /** Between two keys the stack has one reference for every marked nibble. */
  lemma StackSize(hb: HashBuilder)
    requires hb.Valid() && hb.key != []
    ensures |hb.stack| == Marks(hb.stateMasks)
  {
    hide At, PrefixFree, Latest, Marks;
    ForestSize(hb.entries, hb.key, hb.stateMasks);
    assert Grove(hb.entries, hb.key, false, hb.stateMasks) == Forest(hb.entries, hb.key, hb.stateMasks);
  }

  /** From the second key on, the state masks end one level below the point where the last two
      keys part, and the last mask is not empty. */
  lemma MasksSize(hb: HashBuilder, items: seq<Entry>, n: nat)
    requires Ascending(items) && 2 <= n <= |items| && Fed(hb, items, n)
    ensures |hb.stateMasks| == CommonPrefixLength(items[n - 2].key, items[n - 1].key) + 1
    ensures hb.stateMasks[|hb.stateMasks| - 1] != {}
  {
    var prev, key := items[n - 2].key, items[n - 1].key;
    LastTwo(items, n);
    hide At, EntriesOf, MarksSiblings, PrefixFree, Less, CommonPrefixLength;
    MasksReach(hb.entries, prev, key, hb.stateMasks);
  }

  lemma LastTwo(items: seq<Entry>, n: nat)
    requires Ascending(items) && 2 <= n <= |items|
    ensures var m := EntriesOf(items[..n]); var prev, key := items[n - 2].key, items[n - 1].key;
            prev in m && prev != key && forall k | k in m && k != key && k != prev :: Less(k, prev)
  {
    var before := items[..n][..n - 1];
    assert before == items[..n - 1];
    AscendingEntries(before);
    LessIrreflexive(items[n - 1].key);
  }
}
