/** What the builder's hash and tree masks hold: which finished children of the current path are
    branches, and which lead to a branch kept in the database. */
module ChildMarks {
  import opened Primitives
  import opened Tries
  import opened Masks
  import opened Traversal
  import opened Spines
  import opened SpineSteps

  /** Membership in a tree mask or in a hash mask. */
  ghost predicate Counts(tree: bool, t: Trie) {
    if tree then TreeChild(t) else HashChild(t)
  }

  /** The child of the path cur at level l and nibble x is finished. */
  ghost predicate Finished(m: Entries, cur: Nibbles, tip: bool, l: nat, x: Nibble) {
    l < |cur| && (Sibling(m, cur, l, x) || (tip && l == |cur| - 1 && x == cur[l]))
  }

  /** The masks hold exactly the finished children that count. */
  ghost predicate MarksChildren(m: Entries, cur: Nibbles, tip: bool, tree: bool, masks: seq<Mask>)
    requires PrefixFree(m)
  {
    forall l: nat, x: Nibble ::
      Bit(masks, l, x) <==> Finished(m, cur, tip, l, x) && Counts(tree, At(m, cur[..l] + [x]))
  }

  function SetBit(masks: seq<Mask>, l: nat, x: Nibble): (r: seq<Mask>)
    requires l < |masks|
    ensures |r| == |masks|
    ensures forall i: nat, y: Nibble :: Bit(r, i, y) <==> Bit(masks, i, y) || (i == l && y == x)
  {
    masks[l := masks[l] + {x}]
  }

  function ClearBit(masks: seq<Mask>, l: nat, x: Nibble): (r: seq<Mask>)
    requires l < |masks|
    ensures |r| == |masks|
    ensures forall i: nat, y: Nibble :: Bit(r, i, y) <==> Bit(masks, i, y) && !(i == l && y == x)
  {
    masks[l := masks[l] - {x}]
  }

  /** Growing the masks adds nothing. */
  lemma MarksGrow(m: Entries, cur: Nibbles, tip: bool, tree: bool, masks: seq<Mask>, n: nat)
    requires PrefixFree(m) && MarksChildren(m, cur, tip, tree, masks) && |masks| <= n
    ensures MarksChildren(m, cur, tip, tree, Resized(masks, n))
  {
    ResizedBits(masks, n);
  }

  /** Between the marked levels and the end of the path nothing is finished. */
  lemma NoneBetween(m: Entries, cur: Nibbles, masks: seq<Mask>, n: nat, l: nat, x: Nibble)
    requires MarksSiblings(m, cur, masks) && |masks| <= n <= l < |cur|
    ensures !Sibling(m, cur, l, x)
  {
    assert !Bit(masks, l, x);
  }

  lemma FinishedShorter(m: Entries, cur: Nibbles, masks: seq<Mask>, n: nat, l: nat, x: Nibble)
    requires MarksSiblings(m, cur, masks) && |masks| <= n <= |cur|
    ensures Finished(m, cur[..n], true, l, x) <==>
            Finished(m, cur, false, l, x) || (l + 1 == n && x == cur[l])
    ensures Finished(m, cur, false, l, x) ==> l < n
  {
    if l < n {
      assert cur[..n][..l] == cur[..l];
    } else if l < |cur| {
      NoneBetween(m, cur, masks, n, l, x);
    }
  }

  /** Shortening the path to n: the same children count, and the node at the new end may. */
  lemma ShorterMark(m: Entries, cur: Nibbles, tree: bool, masks: seq<Mask>, n: nat, l: nat, x: Nibble)
    requires PrefixFree(m) && MarksSiblings(m, cur, masks) && |masks| <= n <= |cur|
    ensures (Finished(m, cur[..n], true, l, x) && Counts(tree, At(m, cur[..n][..l] + [x]))) <==>
            || (l < n && Finished(m, cur, false, l, x) && Counts(tree, At(m, cur[..l] + [x])))
            || (l + 1 == n && x == cur[l] && Counts(tree, At(m, cur[..n])))
    ensures Finished(m, cur, false, l, x) ==> l < n
  {
    FinishedShorter(m, cur, masks, n, l, x);
    if l < n {
      assert cur[..n][..l] == cur[..l];
      assert l + 1 == n ==> cur[..l] + [cur[l]] == cur[..n];
    }
  }

  /** A leaf counts for neither mask. */
  lemma LeafMarks(m: Entries, cur: Nibbles, tree: bool, masks: seq<Mask>, kids: seq<Mask>, n: nat)
    requires PrefixFree(m) && MarksSiblings(m, cur, masks) && |masks| <= n <= |cur|
    requires MarksChildren(m, cur, false, tree, kids) && At(m, cur[..n]).Leaf?
    ensures MarksChildren(m, cur[..n], true, tree, kids)
  {
    forall l: nat, x: Nibble
      ensures Bit(kids, l, x) <==>
              Finished(m, cur[..n], true, l, x) && Counts(tree, At(m, cur[..n][..l] + [x]))
    {
      ShorterMark(m, cur, tree, masks, n, l, x);
    }
  }

  /** A finished branch at the end of the path sets the last bit when it counts. */
  lemma TipMarks(m: Entries, cur: Nibbles, tree: bool, kids: seq<Mask>)
    requires PrefixFree(m) && cur != [] && |cur| <= |kids|
    requires MarksChildren(m, cur, false, tree, kids)
    ensures Counts(tree, At(m, cur)) ==>
              MarksChildren(m, cur, true, tree, SetBit(kids, |cur| - 1, cur[|cur| - 1]))
    ensures !Counts(tree, At(m, cur)) ==> MarksChildren(m, cur, true, tree, kids)
  {
    assert cur[..|cur| - 1] + [cur[|cur| - 1]] == cur;
  }

  /** The last level holds at most the tip when it lies below the marked levels. */
  lemma TipLevel(m: Entries, cur: Nibbles, tree: bool, masks: seq<Mask>, kids: seq<Mask>)
    requires PrefixFree(m) && MarksSiblings(m, cur, masks) && |masks| < |cur| <= |kids|
    requires MarksChildren(m, cur, true, tree, kids)
    ensures kids[|cur| - 1] != {} <==> Counts(tree, At(m, cur))
  {
    var l := |cur| - 1;
    assert cur[..l] + [cur[l]] == cur;
    assert Bit(kids, l, cur[l]) <==> Counts(tree, At(m, cur));
    forall x | x in kids[l]
      ensures x == cur[l]
    {
      assert Bit(kids, l, x);
      NoneBetween(m, cur, masks, l, l, x);
    }
  }

  /** An extension moves the tip up to its own level. */
  lemma ExtensionMarks(m: Entries, cur: Nibbles, tree: bool, masks: seq<Mask>, kids: seq<Mask>, r: seq<Mask>, n: nat)
    requires PrefixFree(m) && MarksSiblings(m, cur, masks) && |masks| <= n < |cur|
    requires MarksChildren(m, cur, true, tree, kids)
    requires forall l: nat, x: Nibble :: Bit(r, l, x) <==>
               if l + 1 == n && x == cur[l] then Counts(tree, At(m, cur[..n]))
               else l < n && Bit(kids, l, x)
    ensures MarksChildren(m, cur[..n], true, tree, r)
  {
    forall l: nat, x: Nibble
      ensures Bit(r, l, x) <==>
              Finished(m, cur[..n], true, l, x) && Counts(tree, At(m, cur[..n][..l] + [x]))
    {
      ShorterMark(m, cur, tree, masks, n, l, x);
    }
  }

  /** The tip becomes an ordinary finished sibling of the path to the next key. */
  lemma NextMarks(m: Entries, key: Nibbles, cur: Nibbles, tree: bool, masks: seq<Mask>, kids: seq<Mask>,
                  succeeding: Nibbles, l: nat)
    requires PrefixFree(m) && Latest(m, key) && cur <= key && Follows(key, succeeding)
    requires l == CommonPrefixLength(succeeding, cur) < |cur|
    requires MarksSiblings(m, cur, masks) && |masks| <= l + 1
    requires MarksChildren(m, cur[..l + 1], true, tree, kids)
    ensures MarksChildren(m, succeeding, false, tree, kids)
  {
    Leaves(key, cur, succeeding, l);
    NothingAfter(m, key, succeeding, l);
    forall i: nat, x: Nibble
      ensures Bit(kids, i, x) <==>
              Finished(m, succeeding, false, i, x) && Counts(tree, At(m, succeeding[..i] + [x]))
    {
      FinishedShorter(m, cur, masks, l + 1, i, x);
      if i < |succeeding| {
        NextSibling(m, key, cur, succeeding, l, i, x);
      }
      if i <= l {
        assert cur[..l + 1][..i] == cur[..i] == cur[..l][..i] == succeeding[..l][..i] == succeeding[..i];
      }
    }
  }

  /** The masks at the level of a new branch are the branch's own. */
  lemma BranchMarks(m: Entries, cur: Nibbles, tree: bool, masks: seq<Mask>, kids: seq<Mask>, n: nat)
    requires PrefixFree(m) && MarksSiblings(m, cur, masks) && |masks| == n + 1 <= |cur| && n < |kids|
    requires MarksChildren(m, cur[..n + 1], true, tree, kids)
    requires forall x: Nibble :: x in masks[n] + {cur[n]} <==> Inhabited(m, cur[..n] + [x])
    ensures forall x: Nibble :: x in kids[n] <==> Counts(tree, At(m, cur[..n] + [x]))
  {
    forall x: Nibble
      ensures x in kids[n] <==> Counts(tree, At(m, cur[..n] + [x]))
    {
      assert x in kids[n] <==> Bit(kids, n, x);
      FinishedShorter(m, cur, masks, n + 1, n, x);
      assert x in masks[n] <==> Bit(masks, n, x);
      assert cur[..n + 1][..n] == cur[..n];
      AtCanonical(m, cur[..n] + [x]);
    }
  }

  /** Above a new branch the masks keep what they held, and the branch is the new tip. */
  lemma AboveMarks(m: Entries, cur: Nibbles, tree: bool, masks: seq<Mask>, kids: seq<Mask>, r: seq<Mask>, n: nat)
    requires PrefixFree(m) && MarksSiblings(m, cur, masks) && |masks| == n + 1 <= |cur|
    requires MarksChildren(m, cur[..n + 1], true, tree, kids)
    requires forall l: nat, x: Nibble :: Bit(r, l, x) <==>
               l < n && (Bit(kids, l, x) || (l + 1 == n && x == cur[l] && Counts(tree, At(m, cur[..n]))))
    ensures MarksChildren(m, cur[..n], true, tree, r)
  {
    hide At, PrefixFree, MarksSiblings, Counts;
    forall l: nat, x: Nibble
      ensures Bit(r, l, x) <==>
              Finished(m, cur[..n], true, l, x) && Counts(tree, At(m, cur[..n][..l] + [x]))
    {
      ShorterMark(m, cur, tree, masks, n + 1, l, x);
      if l < n {
        assert cur[..n][..l] == cur[..l] == cur[..n + 1][..l];
        assert l + 1 == n ==> cur[..l] + [cur[l]] == cur[..n];
      }
    }
  }
}
