/** The invariant of the builder's loop, and that each step of the loop keeps it. */
module BuilderInvariant {
  import opened Primitives
  import opened Masks
  import opened Tries
  import opened Traversal
  import opened Nodes
  import opened Spines
  import opened SpineSteps
  import opened ChildMarks

  /** The stack is exactly the references of the finished subtries along the path cur, level by
      level and in ascending nibble order, and exactly their nodes have been visited. */
  ghost predicate SpineOk(m: Entries, cur: Nibbles, tip: bool, masks: seq<Mask>,
                          stack: seq<Bytes>, visited: seq<Placed>)
  {
    && PrefixFree(m)
    && MarksSiblings(m, cur, masks)
    && (masks != [] ==> masks[|masks| - 1] != {})
    && stack == References(Grove(m, cur, tip, masks))
    && visited == Visits(Grove(m, cur, tip, masks))
  }

  ghost predicate KidsOk(m: Entries, cur: Nibbles, tip: bool, hashMasks: seq<Mask>, treeMasks: seq<Mask>)
    requires PrefixFree(m)
  {
    && |hashMasks| == |treeMasks|
    && MarksChildren(m, cur, tip, false, hashMasks)
    && MarksChildren(m, cur, tip, true, treeMasks)
  }

  // ----- The masks after each step -----

  /** The masks after `update_masks` and the resize that follows an extension. */
  function ExtendedHash(hashMasks: seq<Mask>, cur: Nibbles, n: nat): (r: seq<Mask>)
    requires n < |cur| <= |hashMasks|
  {
    Resized(if n > 0 then ClearBit(hashMasks, n - 1, cur[n - 1]) else hashMasks, n)
  }

  function ExtendedTree(treeMasks: seq<Mask>, cur: Nibbles, n: nat): (r: seq<Mask>)
    requires n < |cur| <= |treeMasks|
  {
    Resized(if n > 0 && treeMasks[|cur| - 1] != {} then SetBit(treeMasks, n - 1, cur[n - 1]) else treeMasks, n)
  }

  lemma ExtendedKids(m: Entries, cur: Nibbles, masks: seq<Mask>, hashMasks: seq<Mask>, treeMasks: seq<Mask>, n: nat)
    requires PrefixFree(m) && MarksSiblings(m, cur, masks) && |masks| <= n < |cur| <= |treeMasks|
    requires KidsOk(m, cur, true, hashMasks, treeMasks) && Inhabited(m, cur) && HashChild(At(m, cur))
    ensures KidsOk(m, cur[..n], true, ExtendedHash(hashMasks, cur, n), ExtendedTree(treeMasks, cur, n))
  {
    ExtensionStep(m, cur, masks, n);
    ExtendedHashKids(m, cur, masks, hashMasks, n);
    ExtendedTreeKids(m, cur, masks, treeMasks, n);
  }

  lemma ExtendedHashKids(m: Entries, cur: Nibbles, masks: seq<Mask>, kids: seq<Mask>, n: nat)
    requires PrefixFree(m) && MarksSiblings(m, cur, masks) && |masks| <= n < |cur| <= |kids|
    requires MarksChildren(m, cur, true, false, kids) && At(m, cur[..n]).Ext?
    ensures MarksChildren(m, cur[..n], true, false, ExtendedHash(kids, cur, n))
  {
    hide At, PrefixFree, MarksSiblings, MarksChildren;
    var r := ExtendedHash(kids, cur, n);
    ResizedBits(if n > 0 then ClearBit(kids, n - 1, cur[n - 1]) else kids, n);
    ExtensionMarks(m, cur, false, masks, kids, r, n);
  }

  lemma ExtendedTreeKids(m: Entries, cur: Nibbles, masks: seq<Mask>, kids: seq<Mask>, n: nat)
    requires PrefixFree(m) && MarksSiblings(m, cur, masks) && |masks| <= n < |cur| <= |kids|
    requires MarksChildren(m, cur, true, true, kids) && At(m, cur[..n]) == Ext(cur[n..], At(m, cur))
    ensures MarksChildren(m, cur[..n], true, true, ExtendedTree(kids, cur, n))
  {
    hide At, PrefixFree, MarksSiblings, MarksChildren;
    TipLevel(m, cur, true, masks, kids);
    assert TreeChild(At(m, cur[..n])) <==> kids[|cur| - 1] != {};
    UnmarkedPath(m, cur, true, kids, n);
    var r := ExtendedTree(kids, cur, n);
    ResizedBits(if n > 0 && kids[|cur| - 1] != {} then SetBit(kids, n - 1, cur[n - 1]) else kids, n);
    ExtensionMarks(m, cur, true, masks, kids, r, n);
  }

  /** The path's own nibble is not marked above its end. */
  lemma UnmarkedPath(m: Entries, cur: Nibbles, tree: bool, kids: seq<Mask>, n: nat)
    requires PrefixFree(m) && MarksChildren(m, cur, true, tree, kids) && n < |cur|
    ensures n > 0 ==> !Bit(kids, n - 1, cur[n - 1])
  {
  }

  lemma StubKids(m: Entries, cur: Nibbles, hashMasks: seq<Mask>, treeMasks: seq<Mask>)
    requires PrefixFree(m) && 0 < |cur| <= |treeMasks| && KidsOk(m, cur, false, hashMasks, treeMasks)
    requires At(m, cur).Stub?
    ensures var last := |cur| - 1;
            KidsOk(m, cur, true, SetBit(hashMasks, last, cur[last]),
                   if At(m, cur).stored then SetBit(treeMasks, last, cur[last]) else treeMasks)
  {
    hide At, PrefixFree, MarksChildren;
    TipMarks(m, cur, false, hashMasks);
    TipMarks(m, cur, true, treeMasks);
  }

  /** The masks after a branch at level n has been pushed and stored. */
  function AboveBranch(kids: seq<Mask>, cur: Nibbles, n: nat, marked: bool): (r: seq<Mask>)
    requires n <= |cur| && n <= |kids|
  {
    Resized(if n > 0 && marked then SetBit(kids, n - 1, cur[n - 1]) else kids, n)
  }

  lemma AboveKids(m: Entries, cur: Nibbles, tree: bool, masks: seq<Mask>, kids: seq<Mask>, n: nat)
    requires PrefixFree(m) && MarksSiblings(m, cur, masks) && |masks| == n + 1 <= |cur| && n <= |kids|
    requires MarksChildren(m, cur[..n + 1], true, tree, kids)
    ensures MarksChildren(m, cur[..n], true, tree, AboveBranch(kids, cur, n, Counts(tree, At(m, cur[..n]))))
  {
    hide At, PrefixFree, MarksSiblings, MarksChildren;
    var marked := Counts(tree, At(m, cur[..n]));
    ResizedBits(if n > 0 && marked then SetBit(kids, n - 1, cur[n - 1]) else kids, n);
    AboveMarks(m, cur, tree, masks, kids, AboveBranch(kids, cur, n, marked), n);
  }

  // ----- Pushing a node -----

  lemma PushedLeaf(m: Entries, cur: Nibbles, masks: seq<Mask>, stack: seq<Bytes>, visited: seq<Placed>, n: nat)
    requires SpineOk(m, cur, false, masks, stack, visited) && |masks| <= n <= |cur|
    requires cur in m && m[cur].Data?
    ensures var leaf := Leaf(cur[n..], m[cur].bytes);
            && At(m, cur[..n]) == leaf
            && SpineOk(m, cur[..n], true, masks, stack + [Reference(leaf)], visited + [Placed(cur[..n], leaf)])
  {
    hide At, PrefixFree;
    var before := Grove(m, cur, false, masks);
    LeafStep(m, cur, masks, n);
    var item := Placed(cur[..n], At(m, cur[..n]));
    SiblingsShorter(m, cur, masks, n);
    ReferencesConcat(before, [item]);
    LeafVisits(before, item);
  }

  lemma PushedStub(m: Entries, cur: Nibbles, masks: seq<Mask>, stack: seq<Bytes>, visited: seq<Placed>)
    requires SpineOk(m, cur, false, masks, stack, visited)
    requires cur in m && m[cur].Hash?
    ensures At(m, cur) == Stub(m[cur].word, m[cur].stored)
    ensures SpineOk(m, cur, true, masks, stack + [WordRlp(m[cur].word)], visited)
  {
    hide At, PrefixFree;
    StubStep(m, cur);
    var before := Forest(m, cur, masks);
    assert before + [] == before;
    var item := Placed(cur, At(m, cur));
    ReferencesConcat(before, [item]);
    StubVisits(before, item);
  }

  lemma PushedExtension(m: Entries, cur: Nibbles, masks: seq<Mask>, stack: seq<Bytes>, visited: seq<Placed>, n: nat)
    requires SpineOk(m, cur, true, masks, stack, visited) && |masks| <= n < |cur|
    requires Inhabited(m, cur) && HashChild(At(m, cur))
    ensures stack != [] && stack[|stack| - 1] == Reference(At(m, cur))
    ensures var ext := Ext(cur[n..], At(m, cur));
            && At(m, cur[..n]) == ext
            && SpineOk(m, cur[..n], true, masks,
                       stack[..|stack| - 1] + [Reference(ext)], visited + [Placed(cur[..n], ext)])
  {
    hide At, PrefixFree;
    var before := Forest(m, cur, masks);
    var below := Placed(cur, At(m, cur));
    ExtensionStep(m, cur, masks, n);
    var item := Placed(cur[..n], At(m, cur[..n]));
    SiblingsShorter(m, cur, masks, n);
    ReferencesConcat(before, [below]);
    ReferencesConcat(before, [item]);
    assert cur[..n] + cur[n..] == cur;
    ExtensionVisits(before, below, item);
  }

  // ----- Moving on to the next key -----

  lemma MovedOn(m: Entries, key: Nibbles, cur: Nibbles, masks: seq<Mask>, stack: seq<Bytes>, visited: seq<Placed>,
                succeeding: Nibbles, l: nat)
    requires Latest(m, key) && cur <= key && Follows(key, succeeding)
    requires l == CommonPrefixLength(succeeding, cur) < |cur|
    requires MarksSiblings(m, cur, masks) && |masks| <= l + 1
    requires SpineOk(m, cur[..l + 1], true, masks, stack, visited)
    ensures l < |succeeding|
    ensures SpineOk(m, succeeding, false, Marked(masks, l, cur[l]), stack, visited)
  {
    hide At, PrefixFree;
    Leaves(key, cur, succeeding, l);
    NextSiblings(m, key, cur, masks, succeeding, l);
    NextForest(m, key, cur, masks, succeeding, l);
    MarkedParts(masks, l, cur[l]);
  }

  // ----- Finishing a branch -----

  /** The row of a branch's children, encoded with its mask, is the branch. */
  lemma RowRlp(m: Entries, p: Nibbles, row: Mask)
    requires PrefixFree(m)
    requires forall x: Nibble :: x in row <==> Inhabited(m, p + [x])
    ensures BranchRlp(References(Row(m, p, row, 16)), row) == Encode(Branch(Below(m, p)))
  {
    var refs := References(Row(m, p, row, 16));
    var ch := Below(m, p);
    forall x: Nibble
      ensures Slot(refs, row, x) == Reference(ch[x])
    {
      RowSlot(m, p, row, x);
    }
    assert Slots(refs, row, 16) == seq(|ch|, i requires 0 <= i < |ch| => Reference(ch[i]));
  }

  lemma RowSlot(m: Entries, p: Nibbles, row: Mask, x: Nibble)
    requires PrefixFree(m)
    requires x in row <==> Inhabited(m, p + [x])
    ensures Slot(References(Row(m, p, row, 16)), row, x) == Reference(At(m, p + [x]))
  {
    AtCanonical(m, p + [x]);
    if x in row {
      RowAt(m, p, row, 16, x);
    }
  }

  /** A branch child that is hashed can be read back from its reference. */
  lemma ReferenceWord(t: Trie)
    requires t.Stub? || |Encode(t)| >= 32
    ensures |Reference(t)| == 33 && Reference(t)[1..] == RootHash(t)
  {
  }

  /** Every branch child of the branch at p is referred to by its hash. */
  ghost predicate HashedChildren(m: Entries, p: Nibbles)
    requires PrefixFree(m)
  {
    forall x: Nibble | At(m, p + [x]).Branch? :: |Encode(At(m, p + [x]))| >= 32
  }

  /** The children's hashes can be read off their references exactly when every branch child is
      referred to by its hash. */
  lemma HashesReadable(m: Entries, p: Nibbles, row: Mask, hashMask: Mask)
    requires PrefixFree(m)
    requires forall x: Nibble :: x in row <==> Inhabited(m, p + [x])
    requires forall x: Nibble :: x in hashMask <==> HashChild(At(m, p + [x]))
    ensures HashedChildren(m, p) <==>
              forall x: Nibble | x in row && x in hashMask :: |Slot(References(Row(m, p, row, 16)), row, x)| == 33
  {
    hide At, Encode, Row, References;
    forall x: Nibble | x in hashMask
      ensures x in row
      ensures |Slot(References(Row(m, p, row, 16)), row, x)| == 33 <==>
              At(m, p + [x]).Stub? || |Encode(At(m, p + [x]))| >= 32
    {
      AtCanonical(m, p + [x]);
      RowSlot(m, p, row, x);
      ReferenceLength(At(m, p + [x]));
    }
  }

  lemma ReferenceLength(t: Trie)
    ensures |Reference(t)| == 33 <==> t.Stub? || |Encode(t)| >= 32
  {
  }

  lemma RowSlotsHashed(m: Entries, p: Nibbles, row: Mask, hashMask: Mask)
    requires PrefixFree(m) && HashedChildren(m, p)
    requires forall x: Nibble :: x in row <==> Inhabited(m, p + [x])
    requires forall x: Nibble :: x in hashMask <==> HashChild(At(m, p + [x]))
    ensures forall x: Nibble | x in row && x in hashMask ::
              && |Slot(References(Row(m, p, row, 16)), row, x)| == 33
              && Slot(References(Row(m, p, row, 16)), row, x)[1..] == RootHash(At(m, p + [x]))
  {
    forall x: Nibble | x in row && x in hashMask
      ensures |Slot(References(Row(m, p, row, 16)), row, x)| == 33
      ensures Slot(References(Row(m, p, row, 16)), row, x)[1..] == RootHash(At(m, p + [x]))
    {
      RowSlot(m, p, row, x);
      ReferenceWord(At(m, p + [x]));
    }
  }

  lemma {:induction false} RowHashes(m: Entries, p: Nibbles, row: Mask, hashMask: Mask, hi: nat)
    requires PrefixFree(m) && HashedChildren(m, p) && hi <= 16
    requires forall x: Nibble :: x in row <==> Inhabited(m, p + [x])
    requires forall x: Nibble :: x in hashMask <==> HashChild(At(m, p + [x]))
    requires var refs := References(Row(m, p, row, 16));
             forall x: Nibble | x in row && x in hashMask ::
               |Slot(refs, row, x)| == 33 && Slot(refs, row, x)[1..] == RootHash(At(m, p + [x]))
    ensures HashesIn(References(Row(m, p, row, 16)), row, hashMask, hi) == ChildHashes(Branch(Below(m, p)), hi)
  {
    if hi > 0 {
      RowHashes(m, p, row, hashMask, hi - 1);
      AtCanonical(m, p + [hi - 1]);
    }
  }

  /** The stack below the new branch's children, and the children themselves. */
  lemma SplitStack(before: seq<Placed>, row: seq<Placed>, stack: seq<Bytes>)
    requires stack == References(before + row)
    ensures |row| <= |stack|
    ensures stack[|stack| - |row|..] == References(row) && stack[..|stack| - |row|] == References(before)
  {
    ReferencesConcat(before, row);
  }

  /** Replacing a row of children by the branch over them. */
  lemma BranchSpine(m: Entries, p: Nibbles, row: Mask, masks: seq<Mask>, stack: seq<Bytes>, visited: seq<Placed>)
    requires PrefixFree(m) && At(m, p) == Branch(Below(m, p))
    requires forall x: Nibble :: x in row <==> Inhabited(m, p + [x])
    requires MarksSiblings(m, p, masks) && (masks != [] ==> masks[|masks| - 1] != {})
    requires stack == References(Forest(m, p, masks) + Row(m, p, row, 16))
    requires visited == Visits(Forest(m, p, masks) + Row(m, p, row, 16))
    ensures Rank(row, 16) <= |stack|
    ensures Tail(stack, row) == References(Row(m, p, row, 16))
    ensures SpineOk(m, p, true, masks,
                    stack[..|stack| - Rank(row, 16)] + [Reference(At(m, p))],
                    visited + [Placed(p, At(m, p))])
  {
    hide At, PrefixFree;
    var before := Forest(m, p, masks);
    SplitStack(before, Row(m, p, row, 16), stack);
    BranchVisits(m, p, row, before);
    ReferencesConcat(before, [Placed(p, At(m, p))]);
  }

  lemma PushedBranch(m: Entries, key: Nibbles, cur: Nibbles, masks: seq<Mask>, n: nat, p: Nibbles, row: Mask,
                     stack: seq<Bytes>, visited: seq<Placed>)
    requires Latest(m, key) && cur <= key && |masks| == n + 1 <= |cur|
    requires p == cur[..n] && row == masks[n] + {cur[n]}
    requires PrefixFree(m) && MarksSiblings(m, cur, masks) && masks[n] != {}
    requires SpineOk(m, cur[..n + 1], true, masks, stack, visited)
    ensures At(m, p) == Branch(Below(m, p))
    ensures forall x: Nibble :: x in row <==> Inhabited(m, p + [x])
    ensures Rank(row, 16) <= |stack| && Tail(stack, row) == References(Row(m, p, row, 16))
    ensures SpineOk(m, p, true, Trimmed(masks[..n]),
                    stack[..|stack| - Rank(row, 16)] + [Reference(At(m, p))],
                    visited + [Placed(p, At(m, p))])
  {
    hide At, PrefixFree, MarksSiblings, Latest, Row, Forest, Visits, References;
    BranchStep(m, key, cur, masks);
    BranchSiblings(m, cur, masks, n);
    BranchSpine(m, p, row, Trimmed(masks[..n]), stack, visited);
  }

  /** The masks at the level of a new branch are the branch's own. */
  lemma BranchOwnMasks(m: Entries, cur: Nibbles, masks: seq<Mask>, hashMasks: seq<Mask>, treeMasks: seq<Mask>, n: nat)
    requires PrefixFree(m) && MarksSiblings(m, cur, masks) && |masks| == n + 1 <= |cur| && n < |treeMasks|
    requires KidsOk(m, cur[..n + 1], true, hashMasks, treeMasks)
    requires forall x: Nibble :: x in masks[n] + {cur[n]} <==> Inhabited(m, cur[..n] + [x])
    ensures var node := Branch(Below(m, cur[..n]));
            && masks[n] + {cur[n]} == StateMask(node)
            && hashMasks[n] == HashMask(node)
            && treeMasks[n] == TreeMask(node)
  {
    hide At, PrefixFree, MarksSiblings, MarksChildren, TreeChild;
    BranchMarks(m, cur, false, masks, hashMasks, n);
    BranchMarks(m, cur, true, masks, treeMasks, n);
    hide KidsOk;
    var p := cur[..n];
    var node := Branch(Below(m, p));
    forall x: Nibble
      ensures x in masks[n] + {cur[n]} <==> x in StateMask(node)
      ensures x in hashMasks[n] <==> x in HashMask(node)
      ensures x in treeMasks[n] <==> x in TreeMask(node)
    {
      AtCanonical(m, p + [x]);
      assert node.children[x] == At(m, p + [x]);
    }
  }

  /** What pushing the branch will write and read. */
  lemma BranchReady(m: Entries, p: Nibbles, row: Mask, hashMask: Mask, stack: seq<Bytes>)
    requires PrefixFree(m) && Rank(row, 16) <= |stack|
    requires forall x: Nibble :: x in row <==> Inhabited(m, p + [x])
    requires hashMask == HashMask(Branch(Below(m, p)))
    requires Tail(stack, row) == References(Row(m, p, row, 16))
    ensures BranchRlp(Tail(stack, row), row) == Encode(Branch(Below(m, p)))
    ensures HashedChildren(m, p) ==>
              && (forall x: Nibble | x in row && x in hashMask :: |Slot(Tail(stack, row), row, x)| == 33)
              && HashesIn(Tail(stack, row), row, hashMask, 16) == ChildHashes(Branch(Below(m, p)), 16)
  {
    hide At, PrefixFree, Encode, Row;
    RowRlp(m, p, row);
    if HashedChildren(m, p) {
      assert forall x: Nibble :: Branch(Below(m, p)).children[x] == At(m, p + [x]);
      RowSlotsHashed(m, p, row, hashMask);
      RowHashes(m, p, row, hashMask, 16);
    }
  }

  /** All that finishing a branch at level n needs and gives. */
  lemma BranchFacts(m: Entries, key: Nibbles, cur: Nibbles, masks: seq<Mask>, stack: seq<Bytes>, visited: seq<Placed>,
                    hashMasks: seq<Mask>, treeMasks: seq<Mask>, n: nat)
    requires Latest(m, key) && cur <= key && n < |cur|
    requires PrefixFree(m) && MarksSiblings(m, cur, masks) && |masks| == n + 1 && masks[n] != {}
    requires SpineOk(m, cur[..n + 1], true, masks, stack, visited)
    requires KidsOk(m, cur[..n + 1], true, hashMasks, treeMasks) && n < |treeMasks|
    ensures var p := cur[..n]; var node := At(m, p); var row := masks[n] + {cur[n]};
            && node.Branch? && |node.children| == 16
            && row == StateMask(node) && hashMasks[n] == HashMask(node) && treeMasks[n] == TreeMask(node)
            && Rank(row, 16) <= |stack|
            && BranchRlp(Tail(stack, row), row) == Encode(node)
            && (HashedChildren(m, p) ==>
                  && (forall x: Nibble | x in row && x in hashMasks[n] :: |Slot(Tail(stack, row), row, x)| == 33)
                  && HashesIn(Tail(stack, row), row, hashMasks[n], 16) == ChildHashes(node, 16))
            && SpineOk(m, p, true, Trimmed(masks[..n]),
                       stack[..|stack| - Rank(row, 16)] + [Reference(node)], visited + [Placed(p, node)])
            && KidsOk(m, p, true, AboveBranch(hashMasks, cur, n, true), AboveBranch(treeMasks, cur, n, TreeChild(node)))
  {
    hide At, PrefixFree, MarksSiblings, MarksChildren, SpineOk, HashedChildren, Latest;
    hide Encode, HashesIn, ChildHashes, BranchRlp, StateMask, HashMask, TreeMask, TreeChild, Trimmed, Slot, Rank;
    var p := cur[..n];
    PushedBranch(m, key, cur, masks, n, p, masks[n] + {cur[n]}, stack, visited);
    BranchOwnMasks(m, cur, masks, hashMasks, treeMasks, n);
    BranchReady(m, p, masks[n] + {cur[n]}, hashMasks[n], stack);
    AboveKids(m, cur, false, masks, hashMasks, n);
    AboveKids(m, cur, true, masks, treeMasks, n);
  }

  // ----- The ends of the loop -----

  /** With nothing left on the path, the stack holds the root's reference alone. */
  lemma RootSpine(m: Entries, masks: seq<Mask>, stack: seq<Bytes>, visited: seq<Placed>)
    requires SpineOk(m, [], true, masks, stack, visited)
    ensures stack == [Reference(At(m, []))] && visited == PostOrder(At(m, []), [])
  {
    var root := Placed([], At(m, []));
    assert Grove(m, [], true, masks) == [root];
    VisitsOne(root);
  }

  /** The path leaves the next key at the same place after it has been shortened. */
  lemma StillLeaves(succeeding: Nibbles, cur: Nibbles, n: nat)
    requires CommonPrefixLength(succeeding, cur) < n <= |cur|
    ensures CommonPrefixLength(succeeding, cur[..n]) == CommonPrefixLength(succeeding, cur)
    ensures !(cur[..n] <= succeeding)
  {
    var l := CommonPrefixLength(succeeding, cur);
    assert cur[..n][..l] == cur[..l];
    CommonPrefixUnique(succeeding, cur[..n], l);
  }

  lemma LeavesKey(succeeding: Nibbles, key: Nibbles)
    requires key != [] && (succeeding == [] || Follows(key, succeeding))
    ensures CommonPrefixLength(succeeding, key) < |key|
  {
    var l := CommonPrefixLength(succeeding, key);
    assert l == |key| ==> key <= succeeding;
  }

  // ----- Adding a key -----

  /** The next key keeps the map prefix-free and becomes its latest key. */
  lemma AddedLatest(m: Entries, key: Nibbles, next: Nibbles, v: Value)
    requires PrefixFree(m) && Latest(m, key) && Follows(key, next)
    ensures next !in m && PrefixFree(m[next := v]) && Latest(m[next := v], next)
  {
    forall k | k in m
      ensures Less(k, next) && !(k <= next) && !(next <= k)
    {
      if k != key {
        LessTransitive(k, key, next);
        if k <= next {
          Between(k, key, next);
          assert false;
        }
      }
      if next <= k {
        PrefixNotLess(next, k);
        assert false;
      }
    }
  }

  /** The next key changes no finished subtrie. */
  lemma AddedFrame(m: Entries, next: Nibbles, v: Value, l: nat, x: Nibble)
    requires next !in m && l < |next| && x != next[l]
    ensures Under(m[next := v], next[..l] + [x]) == Under(m, next[..l] + [x])
    ensures Inhabited(m[next := v], next[..l] + [x]) <==> Inhabited(m, next[..l] + [x])
  {
    var p := next[..l] + [x];
    assert p[l] == x;
    assert !(p <= next);
    UnderInhabited(m, p);
    UnderInhabited(m[next := v], p);
  }

  lemma AddedSpine(m: Entries, next: Nibbles, v: Value, masks: seq<Mask>, stack: seq<Bytes>, visited: seq<Placed>)
    requires next !in m && PrefixFree(m[next := v])
    requires SpineOk(m, next, false, masks, stack, visited)
    ensures SpineOk(m[next := v], next, false, masks, stack, visited)
  {
    hide At, PrefixFree;
    var m' := m[next := v];
    forall l: nat, x: Nibble | l < |next|
      ensures Bit(masks, l, x) <==> Sibling(m', next, l, x)
      ensures Bit(masks, l, x) ==> At(m, next[..l] + [x]) == At(m', next[..l] + [x])
    {
      if x != next[l] {
        AddedFrame(m, next, v, l, x);
        AtFrame(m, m', next[..l] + [x]);
      }
    }
    ForestFrame(m, next, m', next, masks);
  }

  lemma AddedKids(m: Entries, next: Nibbles, v: Value, tree: bool, kids: seq<Mask>)
    requires next !in m && PrefixFree(m) && PrefixFree(m[next := v])
    requires MarksChildren(m, next, false, tree, kids)
    ensures MarksChildren(m[next := v], next, false, tree, kids)
  {
    hide At, PrefixFree;
    var m' := m[next := v];
    forall l: nat, x: Nibble
      ensures Bit(kids, l, x) <==> Finished(m', next, false, l, x) && Counts(tree, At(m', next[..l] + [x]))
    {
      if l < |next| && x != next[l] {
        AddedFrame(m, next, v, l, x);
        AtFrame(m, m', next[..l] + [x]);
      }
    }
  }

  lemma FirstKey(key: Nibbles)
    requires key != []
    ensures SpineOk(map[], key, false, [], [], []) && KidsOk(map[], key, false, [], [])
  {
  }
}
