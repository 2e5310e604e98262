/** The state a streaming builder keeps between keys, as a function of the keys it has seen:
    the finished subtries that hang off the path to the next key, level by level. */
module Spines {
  import opened Primitives
  import opened Tries
  import opened Masks
  import opened Traversal

  // ----- Finished siblings of a path -----

  /** Some key lies below the sibling x of the path cur at level l. */
  ghost predicate Sibling(m: Entries, cur: Nibbles, l: nat, x: Nibble)
    requires l < |cur|
  {
    x != cur[l] && Inhabited(m, cur[..l] + [x])
  }

  predicate Bit(masks: seq<Mask>, l: nat, x: Nibble) {
    l < |masks| && x in masks[l]
  }

  /** The masks mark exactly the inhabited siblings of the path. */
  ghost predicate MarksSiblings(m: Entries, cur: Nibbles, masks: seq<Mask>) {
    && |masks| <= |cur|
    && forall l: nat, x: Nibble | l < |cur| :: Bit(masks, l, x) <==> Sibling(m, cur, l, x)
  }

  /** The subtries at the nibbles of a mask, in ascending order. */
  ghost function Row(m: Entries, p: Nibbles, mask: Mask, hi: nat): (r: seq<Placed>)
    requires PrefixFree(m) && hi <= 16
    ensures |r| == Rank(mask, hi)
  {
    if hi == 0 then []
    else
      Row(m, p, mask, hi - 1) +
      if hi - 1 in mask then [Placed(p + [hi - 1], At(m, p + [hi - 1]))] else []
  }

  /** The finished subtries along a path: level by level from the root, in ascending nibble
      order within a level. */
  ghost function Forest(m: Entries, cur: Nibbles, masks: seq<Mask>): (f: seq<Placed>)
    requires PrefixFree(m) && |masks| <= |cur|
  {
    if masks == [] then []
    else
      var n := |masks| - 1;
      Forest(m, cur, masks[..n]) + Row(m, cur[..n], masks[n], 16)
  }

  // ----- Rows -----

  /** Nibble x of the mask sits at position Rank(mask, x) of the row. */
  lemma {:induction false} RowAt(m: Entries, p: Nibbles, mask: Mask, hi: nat, x: Nibble)
    requires PrefixFree(m) && x < hi <= 16 && x in mask
    ensures Rank(mask, x) < Rank(mask, hi)
    ensures Row(m, p, mask, hi)[Rank(mask, x)] == Placed(p + [x], At(m, p + [x]))
  {
    hide At, PrefixFree;
    RankMonotone(mask, x, hi);
    if x < hi - 1 {
      RowAt(m, p, mask, hi - 1, x);
    }
  }

  /** A nibble above all others goes to the end of the row. */
  lemma {:induction false} RowAppend(m: Entries, p: Nibbles, mask: Mask, y: Nibble, hi: nat)
    requires PrefixFree(m) && hi <= 16
    requires forall x | x in mask :: x < y
    ensures Row(m, p, mask + {y}, hi) ==
            Row(m, p, mask, hi) + if y < hi then [Placed(p + [y], At(m, p + [y]))] else []
  {
    hide At, PrefixFree;
    if hi > 0 {
      RowAppend(m, p, mask, y, hi - 1);
    }
  }

  lemma {:induction false} RowEmpty(m: Entries, p: Nibbles, hi: nat)
    requires PrefixFree(m) && hi <= 16
    ensures Row(m, p, {}, hi) == []
  {
    if hi > 0 {
      RowEmpty(m, p, hi - 1);
    }
  }

  lemma {:induction false} RowFrame(m: Entries, m': Entries, p: Nibbles, mask: Mask, hi: nat)
    requires PrefixFree(m) && PrefixFree(m') && hi <= 16
    requires forall x | x in mask :: At(m, p + [x]) == At(m', p + [x])
    ensures Row(m, p, mask, hi) == Row(m', p, mask, hi)
  {
    hide At, PrefixFree;
    if hi > 0 {
      RowFrame(m, m', p, mask, hi - 1);
    }
  }

  // ----- Forests -----

  /** A forest depends only on the finished subtries it lists. */
  lemma {:induction false} ForestFrame(m: Entries, cur: Nibbles, m': Entries, cur': Nibbles, masks: seq<Mask>)
    requires PrefixFree(m) && PrefixFree(m') && |masks| <= |cur| && |masks| <= |cur'|
    requires forall l: nat | l < |masks| :: cur[..l] == cur'[..l]
    requires forall l: nat, x: Nibble | Bit(masks, l, x) :: At(m, cur[..l] + [x]) == At(m', cur[..l] + [x])
    ensures Forest(m, cur, masks) == Forest(m', cur', masks)
  {
    hide At, PrefixFree;
    if masks != [] {
      var n := |masks| - 1;
      assert forall l: nat, x: Nibble | Bit(masks[..n], l, x) :: Bit(masks, l, x);
      ForestFrame(m, cur, m', cur', masks[..n]);
      assert forall x | x in masks[n] :: Bit(masks, n, x);
      RowFrame(m, m', cur[..n], masks[n], 16);
    }
  }

  /** `resize` to a larger length: new levels are empty. */
  function Resized(masks: seq<Mask>, n: nat): (r: seq<Mask>)
    ensures |r| == n
  {
    if n <= |masks| then masks[..n] else masks + seq(n - |masks|, _ => {})
  }

  lemma ResizedBits(masks: seq<Mask>, n: nat)
    ensures forall l: nat, x: Nibble :: Bit(Resized(masks, n), l, x) <==> l < n && Bit(masks, l, x)
  {
  }

  lemma ForestSplit(m: Entries, cur: Nibbles, masks: seq<Mask>)
    requires PrefixFree(m) && 0 < |masks| <= |cur|
    ensures var n := |masks| - 1;
            Forest(m, cur, masks) == Forest(m, cur, masks[..n]) + Row(m, cur[..n], masks[n], 16)
  {
    hide At, PrefixFree, Row;
  }

  lemma ForestEmptyLevel(m: Entries, cur: Nibbles, masks: seq<Mask>)
    requires PrefixFree(m) && |masks| < |cur|
    ensures Forest(m, cur, masks + [{}]) == Forest(m, cur, masks)
  {
    hide At, PrefixFree;
    assert (masks + [{}])[..|masks|] == masks;
    RowEmpty(m, cur[..|masks|], 16);
  }

  lemma {:induction false} ForestResized(m: Entries, cur: Nibbles, masks: seq<Mask>, n: nat)
    requires PrefixFree(m) && |masks| <= n <= |cur|
    ensures Forest(m, cur, Resized(masks, n)) == Forest(m, cur, masks)
  {
    hide At, PrefixFree, Forest;
    if n == |masks| {
      assert Resized(masks, n) == masks;
    } else {
      ForestResized(m, cur, masks, n - 1);
      ForestEmptyLevel(m, cur, Resized(masks, n - 1));
      assert Resized(masks, n) == Resized(masks, n - 1) + [{}];
    }
  }

  /** The masks without their trailing empty levels. */
  function Trimmed(masks: seq<Mask>): (r: seq<Mask>)
    ensures |r| <= |masks| && r == masks[..|r|]
    ensures r != [] ==> r[|r| - 1] != {}
  {
    if masks != [] && masks[|masks| - 1] == {} then Trimmed(masks[..|masks| - 1]) else masks
  }

  lemma {:induction false} TrimmedBits(masks: seq<Mask>, l: nat, x: Nibble)
    ensures Bit(Trimmed(masks), l, x) <==> Bit(masks, l, x)
  {
    if masks != [] && masks[|masks| - 1] == {} {
      TrimmedBits(masks[..|masks| - 1], l, x);
    }
  }

  lemma {:induction false} ForestTrimmed(m: Entries, cur: Nibbles, masks: seq<Mask>)
    requires PrefixFree(m) && |masks| <= |cur|
    ensures Forest(m, cur, Trimmed(masks)) == Forest(m, cur, masks)
  {
    hide At, PrefixFree;
    if masks != [] && masks[|masks| - 1] == {} {
      ForestTrimmed(m, cur, masks[..|masks| - 1]);
      RowEmpty(m, cur[..|masks| - 1], 16);
    }
  }

  /** Marks the path's own nibble at a level, growing the masks to that level. */
  function Marked(masks: seq<Mask>, l: nat, x: Nibble): (r: seq<Mask>)
    ensures |r| == (if |masks| <= l then l + 1 else |masks|)
  {
    var grown := if |masks| <= l then Resized(masks, l + 1) else masks;
    grown[l := grown[l] + {x}]
  }

  lemma MarkedBits(masks: seq<Mask>, l: nat, x: Nibble)
    ensures forall i: nat, y: Nibble :: Bit(Marked(masks, l, x), i, y) <==> Bit(masks, i, y) || (i == l && y == x)
  {
    ResizedBits(masks, l + 1);
  }

  lemma MarkedParts(masks: seq<Mask>, l: nat, x: Nibble)
    requires |masks| <= l + 1
    ensures |Marked(masks, l, x)| == l + 1
    ensures Marked(masks, l, x)[..l] == Resized(masks, l + 1)[..l]
    ensures Marked(masks, l, x)[l] == Resized(masks, l + 1)[l] + {x}
  {
    assert |masks| == l + 1 ==> Resized(masks, l + 1) == masks;
  }

  /** Marking the path's own nibble below all finished levels appends the node there to the
      forest. */
  lemma ForestMarked(m: Entries, cur: Nibbles, masks: seq<Mask>, l: nat)
    requires PrefixFree(m) && |masks| <= l + 1 <= |cur|
    requires forall x: Nibble | Bit(masks, l, x) :: x < cur[l]
    ensures |Marked(masks, l, cur[l])| == l + 1
    ensures Forest(m, cur, Marked(masks, l, cur[l])) ==
            Forest(m, cur, masks) + [Placed(cur[..l + 1], At(m, cur[..l + 1]))]
  {
    hide At, PrefixFree;
    hide Forest, Row;
    var grown := Resized(masks, l + 1);
    ForestResized(m, cur, masks, l + 1);
    ForestSplit(m, cur, grown);
    ForestSplit(m, cur, Marked(masks, l, cur[l]));
    MarkedParts(masks, l, cur[l]);
    forall x | x in grown[l]
      ensures x < cur[l]
    {
      assert Bit(masks, l, x);
    }
    RowAppend(m, cur[..l], grown[l], cur[l], 16);
    assert cur[..l] + [cur[l]] == cur[..l + 1];
  }
}
