/** What each step of the builder does to the spine: the value-level facts behind the loop of
    `HashBuilder::update`. */
module SpineSteps {
  import opened Primitives
  import opened Tries
  import opened Masks
  import opened Traversal
  import opened Spines

  /** key is the last key added: the greatest of m. */
  ghost predicate Latest(m: Entries, key: Nibbles) {
    key in m && forall k | k in m && k != key :: Less(k, key)
  }

  /** succeeding may follow key: it comes after it and key is not one of its prefixes. */
  predicate Follows(key: Nibbles, succeeding: Nibbles) {
    Less(key, succeeding) && !(key <= succeeding)
  }

  // ----- Siblings -----

  /** Finished siblings stand to the left of the path. */
  lemma SiblingSmaller(m: Entries, key: Nibbles, cur: Nibbles, l: nat, x: Nibble)
    requires Latest(m, key) && cur <= key && l < |cur| && Sibling(m, cur, l, x)
    ensures x < cur[l]
  {
    var k :| k in m && cur[..l] + [x] <= k;
    assert k[l] == x && k[..l] == cur[..l] == key[..l];
    LessAt(k, key, l);
  }

  /** Below the marked levels the keys do not part before cur. */
  lemma Undivided(m: Entries, cur: Nibbles, masks: seq<Mask>, n: nat, k: Nibbles)
    requires PrefixFree(m) && MarksSiblings(m, cur, masks) && Inhabited(m, cur)
    requires |masks| <= n <= |cur| && k in m && cur[..n] <= k
    ensures cur <= k
  {
    var c := CommonPrefixLength(k, cur);
    CommonAtLeast(k, cur, n);
    var key :| key in m && cur <= key;
    if c < |cur| && c < |k| {
      assert cur[..c] + [k[c]] <= k;
      assert Inhabited(m, cur[..c] + [k[c]]);
      assert Sibling(m, cur, c, k[c]);
      assert false;
    }
  }

  lemma CommonAtLeast(a: Nibbles, b: Nibbles, n: nat)
    requires n <= |a| && n <= |b| && a[..n] == b[..n]
    ensures n <= CommonPrefixLength(a, b)
  {
    AgreeOn(a, b, n);
  }

  /** No key seen so far extends the path to the next key beyond where it leaves the last. */
  lemma NothingAfter(m: Entries, key: Nibbles, succeeding: Nibbles, l: nat)
    requires Latest(m, key) && l < |key| && l < |succeeding|
    requires key[..l] == succeeding[..l] && key[l] < succeeding[l]
    ensures !Inhabited(m, succeeding[..l + 1])
  {
    forall k | k in m
      ensures !(succeeding[..l + 1] <= k)
    {
      if succeeding[..l + 1] <= k {
        assert k[l] == succeeding[l] && k[..l] == succeeding[..l] == key[..l];
        LessAt(k, key, l);
        LessAt(key, k, l);
        assert false;
      }
    }
  }

  /** Where the next key leaves the current path. */
  lemma Leaves(key: Nibbles, cur: Nibbles, succeeding: Nibbles, l: nat)
    requires cur <= key && l == CommonPrefixLength(succeeding, cur) < |cur|
    requires Follows(key, succeeding)
    ensures l < |succeeding| && key[..l] == succeeding[..l] && key[l] < succeeding[l]
  {
    assert succeeding[..l] == cur[..l] == key[..l];
    CommonPrefixUnique(key, succeeding, l);
  }

  // ----- The spine with the node on top of it -----

  /** The finished subtries of a path and, when tip is set, the node at the path itself. */
  ghost function Grove(m: Entries, cur: Nibbles, tip: bool, masks: seq<Mask>): (f: seq<Placed>)
    requires PrefixFree(m) && |masks| <= |cur|
  {
    Forest(m, cur, masks) + if tip then [Placed(cur, At(m, cur))] else []
  }

  /** Shortening the path below the marked levels keeps the siblings. */
  lemma SiblingsShorter(m: Entries, cur: Nibbles, masks: seq<Mask>, n: nat)
    requires MarksSiblings(m, cur, masks) && |masks| <= n <= |cur|
    ensures MarksSiblings(m, cur[..n], masks)
    ensures forall l: nat, x: Nibble | l < n :: Sibling(m, cur[..n], l, x) <==> Sibling(m, cur, l, x)
  {
    forall l: nat, x: Nibble | l < n
      ensures Sibling(m, cur[..n], l, x) <==> Sibling(m, cur, l, x)
    {
      assert cur[..n][..l] == cur[..l];
    }
  }

  lemma ForestShorter(m: Entries, cur: Nibbles, masks: seq<Mask>, n: nat)
    requires PrefixFree(m) && |masks| <= n <= |cur|
    ensures Forest(m, cur[..n], masks) == Forest(m, cur, masks)
  {
    forall l: nat | l < |masks|
      ensures cur[..n][..l] == cur[..l]
    {
    }
    ForestFrame(m, cur, m, cur[..n], masks);
  }

  /** A leaf is finished: it takes all of the path below the last marked level. */
  lemma LeafStep(m: Entries, cur: Nibbles, masks: seq<Mask>, n: nat)
    requires PrefixFree(m) && MarksSiblings(m, cur, masks) && |masks| <= n <= |cur|
    requires cur in m && m[cur].Data?
    ensures At(m, cur[..n]) == Leaf(cur[n..], m[cur].bytes)
    ensures Grove(m, cur[..n], true, masks) ==
            Grove(m, cur, false, masks) + [Placed(cur[..n], At(m, cur[..n]))]
  {
    assert Inhabited(m, cur);
    forall j | j in m && cur[..n] <= j
      ensures j == cur
    {
      Undivided(m, cur, masks, n, j);
    }
    AtSingle(m, cur[..n], cur);
    ForestShorter(m, cur, masks, n);
  }

  /** A branch known by its hash is finished. */
  lemma StubStep(m: Entries, cur: Nibbles)
    requires PrefixFree(m) && cur in m && m[cur].Hash?
    ensures At(m, cur) == Stub(m[cur].word, m[cur].stored)
  {
    AtSingle(m, cur, cur);
  }

  /** A finished branch further down than the last marked level gets an extension. */
  lemma ExtensionStep(m: Entries, cur: Nibbles, masks: seq<Mask>, n: nat)
    requires PrefixFree(m) && MarksSiblings(m, cur, masks) && |masks| <= n < |cur|
    requires Inhabited(m, cur) && HashChild(At(m, cur))
    ensures At(m, cur[..n]) == Ext(cur[n..], At(m, cur))
    ensures Grove(m, cur[..n], true, masks) ==
            Forest(m, cur, masks) + [Placed(cur[..n], At(m, cur[..n]))]
  {
    forall j | j in m && cur[..n] <= j
      ensures cur <= j
    {
      Undivided(m, cur, masks, n, j);
    }
    AtSkip(m, cur[..n], cur);
    ForestShorter(m, cur, masks, n);
  }

  /** The next key leaves the path at level l: the node just below becomes one more finished
      sibling of the path to it. */
  lemma NextSiblings(m: Entries, key: Nibbles, cur: Nibbles, masks: seq<Mask>, succeeding: Nibbles, l: nat)
    requires Latest(m, key) && cur <= key && Follows(key, succeeding)
    requires l == CommonPrefixLength(succeeding, cur) < |cur|
    requires MarksSiblings(m, cur, masks) && |masks| <= l + 1
    ensures l < |succeeding| && MarksSiblings(m, succeeding, Marked(masks, l, cur[l]))
  {
    Leaves(key, cur, succeeding, l);
    NothingAfter(m, key, succeeding, l);
    var r := Marked(masks, l, cur[l]);
    MarkedBits(masks, l, cur[l]);
    forall i: nat, x: Nibble | i < |succeeding|
      ensures Bit(r, i, x) <==> Sibling(m, succeeding, i, x)
    {
      NextSibling(m, key, cur, succeeding, l, i, x);
    }
  }

  lemma NextSibling(m: Entries, key: Nibbles, cur: Nibbles, succeeding: Nibbles, l: nat, i: nat, x: Nibble)
    requires key in m && cur <= key
    requires l < |cur| && l < |succeeding| && cur[..l] == succeeding[..l] && cur[l] != succeeding[l]
    requires !Inhabited(m, succeeding[..l + 1]) && i < |succeeding|
    ensures i < l ==> (Sibling(m, succeeding, i, x) <==> Sibling(m, cur, i, x))
    ensures i == l ==> (Sibling(m, succeeding, i, x) <==> Sibling(m, cur, i, x) || x == cur[l])
    ensures i > l ==> !Sibling(m, succeeding, i, x)
  {
    if i < l {
      assert succeeding[..i] == succeeding[..l][..i] == cur[..l][..i] == cur[..i];
      AgreeOn(cur, succeeding, l);
    } else if i == l {
      assert cur[..l] + [cur[l]] <= key;
      assert succeeding[..l] + [succeeding[l]] == succeeding[..l + 1];
    } else {
      assert succeeding[..l + 1] <= succeeding[..i] + [x];
      assert forall k | k in m && succeeding[..i] + [x] <= k :: succeeding[..l + 1] <= k;
    }
  }

  lemma NextForest(m: Entries, key: Nibbles, cur: Nibbles, masks: seq<Mask>, succeeding: Nibbles, l: nat)
    requires PrefixFree(m) && Latest(m, key) && cur <= key
    requires l < |cur| && l < |succeeding| && cur[..l] == succeeding[..l]
    requires MarksSiblings(m, cur, masks) && |masks| <= l + 1
    ensures Grove(m, succeeding, false, Marked(masks, l, cur[l])) ==
            Grove(m, cur[..l + 1], true, masks)
  {
    forall x: Nibble | Bit(masks, l, x)
      ensures x < cur[l]
    {
      SiblingSmaller(m, key, cur, l, x);
    }
    ForestMarked(m, cur, masks, l);
    var r := Marked(masks, l, cur[l]);
    forall i: nat | i < |r|
      ensures cur[..i] == succeeding[..i]
    {
      assert cur[..i] == cur[..l][..i] && succeeding[..i] == succeeding[..l][..i];
    }
    ForestFrame(m, cur, m, succeeding, r);
    ForestShorter(m, cur, masks, l + 1);
  }

  /** The next key leaves the path above level n: the finished nodes of that level become one
      branch. */
  lemma BranchStep(m: Entries, key: Nibbles, cur: Nibbles, masks: seq<Mask>)
    requires PrefixFree(m) && Latest(m, key) && cur <= key && cur != []
    requires MarksSiblings(m, cur, masks) && masks != [] && masks[|masks| - 1] != {}
    ensures var n := |masks| - 1; var p := cur[..n]; var row := masks[n] + {cur[n]};
            && At(m, p) == Branch(Below(m, p))
            && (forall x: Nibble :: x in row <==> Inhabited(m, p + [x]))
            && Grove(m, cur[..n + 1], true, masks) == Forest(m, p, masks[..n]) + Row(m, p, row, 16)
  {
    var n := |masks| - 1;
    var p := cur[..n];
    var row := masks[n] + {cur[n]};
    assert p + [cur[n]] <= key;
    forall x: Nibble
      ensures x in row <==> Inhabited(m, p + [x])
    {
      assert x in masks[n] <==> Bit(masks, n, x);
      assert x != cur[n] ==> (Sibling(m, cur, n, x) <==> Inhabited(m, p + [x]));
    }
    var x :| x in masks[n];
    assert Bit(masks, n, x) && Sibling(m, cur, n, x);
    AtBranch(m, p, x, cur[n]);
    BranchRow(m, key, cur, masks);
  }

  lemma BranchRow(m: Entries, key: Nibbles, cur: Nibbles, masks: seq<Mask>)
    requires PrefixFree(m) && Latest(m, key) && cur <= key && cur != []
    requires MarksSiblings(m, cur, masks) && masks != []
    ensures var n := |masks| - 1; var p := cur[..n]; var row := masks[n] + {cur[n]};
            Grove(m, cur[..n + 1], true, masks) == Forest(m, p, masks[..n]) + Row(m, p, row, 16)
  {
    var n := |masks| - 1;
    var p := cur[..n];
    forall x | x in masks[n]
      ensures x < cur[n]
    {
      assert Bit(masks, n, x);
      SiblingSmaller(m, key, cur, n, x);
    }
    hide At, PrefixFree, MarksSiblings, Row;
    RowAppend(m, p, masks[n], cur[n], 16);
    assert p + [cur[n]] == cur[..n + 1];
    ForestShorter(m, cur, masks, n + 1);
    ForestShorter(m, cur, masks[..n], n);
  }

  /** Above a new branch, the levels that remain marked. */
  lemma BranchSiblings(m: Entries, cur: Nibbles, masks: seq<Mask>, n: nat)
    requires PrefixFree(m) && MarksSiblings(m, cur, masks) && n <= |masks|
    ensures MarksSiblings(m, cur[..n], Trimmed(masks[..n]))
    ensures Forest(m, cur[..n], Trimmed(masks[..n])) == Forest(m, cur[..n], masks[..n])
  {
    forall l: nat, x: Nibble | l < n
      ensures Bit(Trimmed(masks[..n]), l, x) <==> Sibling(m, cur[..n], l, x)
    {
      TrimmedBits(masks[..n], l, x);
      assert cur[..n][..l] == cur[..l];
      assert Bit(masks[..n], l, x) <==> Bit(masks, l, x);
    }
    ForestTrimmed(m, cur[..n], masks[..n]);
  }

  // ----- Finishing a branch -----

  /** The row of a branch's children is visited as the branch's post-order asks. */
  lemma {:induction false} RowVisits(m: Entries, p: Nibbles, row: Mask, hi: nat)
    requires PrefixFree(m) && hi <= 16
    requires forall x: Nibble :: x in row <==> Inhabited(m, p + [x])
    ensures Visits(Row(m, p, row, hi)) == PostChildren(Branch(Below(m, p)), p, hi)
  {
    if hi > 0 {
      var x: Nibble := hi - 1;
      RowVisits(m, p, row, x);
      AtCanonical(m, p + [x]);
      if x in row {
        var item := Placed(p + [x], At(m, p + [x]));
        VisitsConcat(Row(m, p, row, x), [item]);
        VisitsOne(item);
      } else {
        assert Row(m, p, row, hi) == Row(m, p, row, x);
      }
    }
  }

  lemma BranchVisits(m: Entries, p: Nibbles, row: Mask, before: seq<Placed>)
    requires PrefixFree(m) && At(m, p) == Branch(Below(m, p))
    requires forall x: Nibble :: x in row <==> Inhabited(m, p + [x])
    ensures Visits(before + [Placed(p, At(m, p))]) ==
            Visits(before + Row(m, p, row, 16)) + [Placed(p, At(m, p))]
  {
    RowVisits(m, p, row, 16);
    VisitsConcat(before, Row(m, p, row, 16));
    VisitsConcat(before, [Placed(p, At(m, p))]);
    VisitsOne(Placed(p, At(m, p)));
    Assoc(Visits(before), Visits(Row(m, p, row, 16)), [Placed(p, At(m, p))]);
  }

  lemma LeafVisits(before: seq<Placed>, item: Placed)
    requires item.node.Leaf?
    ensures Visits(before + [item]) == Visits(before) + [item]
  {
    VisitsConcat(before, [item]);
    VisitsOne(item);
  }

  lemma StubVisits(before: seq<Placed>, item: Placed)
    requires item.node.Stub?
    ensures Visits(before + [item]) == Visits(before)
  {
    VisitsConcat(before, [item]);
    VisitsOne(item);
  }

  lemma ExtensionVisits(before: seq<Placed>, below: Placed, item: Placed)
    requires item.node.Ext? && item.node.child == below.node && item.path + item.node.path == below.path
    ensures Visits(before + [item]) == Visits(before + [below]) + [item]
  {
    VisitsConcat(before, [below]);
    VisitsOne(below);
    VisitsConcat(before, [item]);
    VisitsOne(item);
    Assoc(Visits(before), PostOrder(below.node, below.path), [item]);
  }
}
