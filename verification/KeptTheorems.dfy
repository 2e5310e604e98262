/** What the retained nodes are good for: every target's nodes are there, and so are the nodes
    needed when removed keys collapse a branch or added keys split an extension. */
module KeptTheorems {
  import opened Primitives
  import opened HexPrefixes
  import opened Masks
  import opened Tries
  import opened Traversal
  import opened Locations
  import opened Retention
  import opened Kept
  import opened KeptExactly
  import opened Lookups

  // ----- The three promises, on whole tries -----

  /** Every retained pair is the encoding of the trie's node at that path, and every node whose
      path is a prefix of a target is retained. */
  lemma RetainsAuthentic(cfg: Config, t: Trie, p: Nibbles)
    requires Canonical(t)
    ensures var nodes := Run(cfg, PostOrder(t, [])).nodes;
            && (p in nodes ==> !NodeAt(t, p).Empty? && nodes[p] == Encode(NodeAt(t, p)))
            && (!NodeAt(t, p).Empty? && cfg.Matches(p) ==> p in nodes)
  {
    RunKeeps(cfg, t);
    if p in Keep(cfg, t, []) {
      KeepStands(cfg, t, [], p);
      assert p[0..] == p;
    }
    KeepsExactly(cfg, t, [], p);
    assert [] + p == p;
  }

  /** Configuring added and removed keys only adds entries. */
  lemma KeysOnlyAdd(cfg: Config, t: Trie, p: Nibbles)
    requires Canonical(t)
    requires p in Run(cfg.(keys := None), PostOrder(t, [])).nodes
    ensures p in Run(cfg, PostOrder(t, [])).nodes
    ensures Run(cfg, PostOrder(t, [])).nodes[p] == Run(cfg.(keys := None), PostOrder(t, [])).nodes[p]
  {
    var plain := cfg.(keys := None);
    RunKeeps(plain, t);
    KeepsExactly(plain, t, [], p);
    assert [] + p == p;
    assert plain.Matches(p) <==> cfg.Matches(p);
    RetainsAuthentic(plain, t, p);
    RetainsAuthentic(cfg, t, p);
  }

  // ----- When a branch collapses -----

  /** No node of the subtrie is tracked. */
  lemma {:induction false} NoneTracked(cfg: Config, t: Trie, path: Nibbles)
    requires Canonical(t)
    ensures LastTracked(cfg, t, path).None? <==> forall p | !NodeAt(t, p).Empty? :: !Tracked(cfg, path + p)
    decreases t, 17
  {
    if LastTracked(cfg, t, path).Some? {
      TrackedStands(cfg, t, path);
      var k := LastTracked(cfg, t, path).value.path;
      assert path + k[|path|..] == k;
    } else {
      forall p | !NodeAt(t, p).Empty?
        ensures !Tracked(cfg, path + p)
      {
        UntrackedStands(cfg, t, path, p);
      }
    }
  }

  lemma {:induction false} TrackedStands(cfg: Config, t: Trie, path: Nibbles)
    requires Canonical(t) && LastTracked(cfg, t, path).Some?
    ensures var k := LastTracked(cfg, t, path).value.path;
            path <= k && !NodeAt(t, k[|path|..]).Empty? && Tracked(cfg, k)
    decreases t, 17
  {
    LastTrackedBelow(cfg, t, path);
    var k := LastTracked(cfg, t, path).value.path;
    if k == path {
    } else {
      match t
      case Ext(q, c) =>
        TrackedStands(cfg, c, path + q);
        assert k[|path|..] == q + k[|path + q|..];
        NodeAtExt(t, k[|path + q|..]);
      case Branch(ch) =>
        TrackedChildStands(cfg, t, path, 16);
    }
  }

  lemma {:induction false} TrackedChildStands(cfg: Config, t: Trie, path: Nibbles, hi: nat)
    requires t.Branch? && Canonical(t) && hi <= 16 && LastTrackedChild(cfg, t, path, hi).Some?
    ensures var k := LastTrackedChild(cfg, t, path, hi).value.path;
            path <= k && !NodeAt(t, k[|path|..]).Empty?
    decreases t, hi
  {
    var x: Nibble := hi - 1;
    if LastTracked(cfg, t.children[x], path + [x]).Some? {
      TrackedStands(cfg, t.children[x], path + [x]);
      var k := LastTrackedChild(cfg, t, path, hi).value.path;
      assert k[|path|..] == [x] + k[|path| + 1..];
      NodeAtBranch(t, x, k[|path| + 1..]);
    } else {
      TrackedChildStands(cfg, t, path, x);
    }
  }

  lemma {:induction false} UntrackedStands(cfg: Config, t: Trie, path: Nibbles, p: Nibbles)
    requires Canonical(t) && LastTracked(cfg, t, path).None? && !NodeAt(t, p).Empty?
    ensures !Tracked(cfg, path + p)
    decreases t
  {
    if p == [] {
      assert path + p == path;
    } else {
      match t
      case Ext(q, c) =>
        UntrackedStands(cfg, c, path + q, p[|q|..]);
        assert (path + q) + p[|q|..] == path + p;
      case Branch(ch) =>
        UntrackedChild(cfg, t, path, p[0], 16);
        UntrackedStands(cfg, ch[p[0]], path + [p[0]], p[1..]);
        assert (path + [p[0]]) + p[1..] == path + p;
    }
  }

  lemma {:induction false} UntrackedChild(cfg: Config, t: Trie, path: Nibbles, x: Nibble, hi: nat)
    requires t.Branch? && x < hi <= |t.children| && hi <= 16 && LastTrackedChild(cfg, t, path, hi).None?
    ensures LastTracked(cfg, t.children[x], path + [x]).None?
  {
    if x < hi - 1 {
      UntrackedChild(cfg, t, path, x, hi - 1);
    }
  }

  /** The last tracked node below a branch is child x exactly when child x is tracked and nothing
      below a later child is. */
  lemma {:induction false} LastIsChild(cfg: Config, t: Trie, path: Nibbles, x: Nibble, hi: nat)
    requires t.Branch? && Canonical(t) && x < hi <= 16
    requires !t.children[x].Empty? && !t.children[x].Stub? && Tracked(cfg, path + [x])
    requires forall y: Nibble | x < y < hi :: LastTracked(cfg, t.children[y], path + [y]).None?
    ensures LastTrackedChild(cfg, t, path, hi) == Some(Placed(path + [x], t.children[x]))
  {
    if x < hi - 1 {
      LastIsChild(cfg, t, path, x, hi - 1);
    }
  }

  /** A branch may collapse into child x exactly when x alone leads to no removed key, is known by
      more than its hash and is not a target, and no node below a later child is both untargeted
      and without removed keys. */
  lemma CollapsesExactly(cfg: Config, t: Trie, path: Nibbles, x: Nibble)
    requires t.Branch? && Canonical(t) && cfg.keys.Some?
    ensures Collapses(cfg, t, path, x) <==>
            && Surviving(cfg.keys.value, path, StateMask(t)) == {x}
            && !t.children[x].Stub? && !cfg.Matches(path + [x])
            && forall y: Nibble, p: Nibbles | x < y && !NodeAt(t.children[y], p).Empty? :: !Tracked(cfg, path + [y] + p)
  {
    var s := Surviving(cfg.keys.value, path, StateMask(t));
    forall y: Nibble
      ensures LastTracked(cfg, t.children[y], path + [y]).None? <==>
              forall p | !NodeAt(t.children[y], p).Empty? :: !Tracked(cfg, path + [y] + p)
    {
      NoneTracked(cfg, t.children[y], path + [y]);
    }
    if Collapses(cfg, t, path, x) {
      LastTrackedChildBelow(cfg, t, path, 16);
      forall y: Nibble | x < y
        ensures LastTracked(cfg, t.children[y], path + [y]).None?
      {
        NoneAfter(cfg, t, path, y, 16);
      }
    } else if s == {x} && !t.children[x].Stub? && !cfg.Matches(path + [x]) {
      assert x in s;
      if forall y: Nibble | x < y :: LastTracked(cfg, t.children[y], path + [y]).None? {
        LastIsChild(cfg, t, path, x, 16);
        assert false;
      }
    }
  }

  /** Nothing is tracked below a child after the last tracked one. */
  lemma {:induction false} NoneAfter(cfg: Config, t: Trie, path: Nibbles, y: Nibble, hi: nat)
    requires t.Branch? && Canonical(t) && y < hi <= 16
    requires LastTrackedChild(cfg, t, path, hi).Some?
    requires |path| < |LastTrackedChild(cfg, t, path, hi).value.path|
    requires LastTrackedChild(cfg, t, path, hi).value.path[|path|] < y
    ensures LastTracked(cfg, t.children[y], path + [y]).None?
  {
    LastTrackedBelow(cfg, t.children[hi - 1], path + [hi - 1]);
    if y < hi - 1 {
      NoneAfter(cfg, t, path, y, hi - 1);
    }
  }

  /** k is a removed key. */
  ghost predicate IsRemoved(cfg: Config, k: Nibbles) {
    cfg.keys.Some? && exists w :: w in cfg.keys.value.removed && Unpack(w) == k
  }

  /** A path above a removed key leads to it. */
  lemma LeadsToRemoved(cfg: Config, path: Nibbles, k: Nibbles)
    requires IsRemoved(cfg, k) && path <= k
    ensures cfg.keys.value.HasRemoved(path)
  {
    var w :| w in cfg.keys.value.removed && Unpack(w) == k;
    assert path <= Unpack(w);
  }

  /** Where every key is removed, nothing is tracked. */
  lemma {:induction false} RemovedUntracked(cfg: Config, m: Entries, q: Nibbles)
    requires PrefixFree(m) && forall k | k in m && q <= k :: IsRemoved(cfg, k)
    ensures LastTracked(cfg, At(m, q), q).None?
    decreases At(m, q), 17
  {
    var t := At(m, q);
    AtCanonical(m, q);
    if Inhabited(m, q) {
      var k :| k in m && q <= k;
      LeadsToRemoved(cfg, q, k);
      match t
      case Ext(short, c) =>
        ExtLeadsTo(m, q);
        RemovedUntracked(cfg, m, q + short);
      case Branch(ch) =>
        BranchIsBelow(m, q);
        RemovedChildren(cfg, m, q, 16);
      case _ =>
    }
  }

  lemma {:induction false} RemovedChildren(cfg: Config, m: Entries, q: Nibbles, hi: nat)
    requires PrefixFree(m) && forall k | k in m && q <= k :: IsRemoved(cfg, k)
    requires At(m, q) == Branch(Below(m, q)) && hi <= 16
    ensures LastTrackedChild(cfg, At(m, q), q, hi).None?
    decreases At(m, q), hi
  {
    hide At, PrefixFree;
    if hi > 0 {
      assert At(m, q).children[hi - 1] == At(m, q + [hi - 1]);
      RemovedUntracked(cfg, m, q + [hi - 1]);
      RemovedChildren(cfg, m, q, hi - 1);
    }
  }

  /** When all keys below a targeted branch but those below child x are removed, and none below x
      is, child x is retained whether or not it is a target. */
  lemma CollapseRetained(cfg: Config, m: Entries, p: Nibbles, x: Nibble)
    requires PrefixFree(m) && LeavesOnly(m) && cfg.keys.Some?
    requires NodeAt(TrieOf(m), p).Branch? && (p == [] || exists k :: k in cfg.targets && p <= k)
    requires Inhabited(m, p + [x]) && forall w | w in cfg.keys.value.removed :: !(p + [x] <= Unpack(w))
    requires forall k | k in m && p <= k && !(p + [x] <= k) :: exists w :: w in cfg.keys.value.removed && Unpack(w) == k
    ensures Canonical(TrieOf(m)) && !NodeAt(TrieOf(m), p + [x]).Empty?
    ensures var nodes := Run(cfg, PostOrder(TrieOf(m), [])).nodes;
            p + [x] in nodes && nodes[p + [x]] == Encode(NodeAt(TrieOf(m), p + [x]))
  {
    assert cfg.Matches(p) && !cfg.keys.value.HasRemoved(p + [x]);
    assert forall k | k in m && p <= k && !(p + [x] <= k) :: IsRemoved(cfg, k);
    TrieOfAt(m);
    AtCanonical(m, []);
    BranchChildren(m, p);
    ChildStands(TrieOf(m), p, x, m);
    hide At, TrieOf, Canonical, LeavesOnly, PrefixFree, Run, Encode, Collapses, AdoptedAt, IsRemoved, Inhabited;
    hide NodeAt, PostOrder;
    if !cfg.Matches(p + [x]) {
      CollapseHolds(cfg, m, p, x);
      AdoptedHere(cfg, TrieOf(m), p, x);
    }
    AdoptedRetained(cfg, TrieOf(m), p + [x]);
  }

  lemma BranchChildren(m: Entries, p: Nibbles)
    requires PrefixFree(m) && NodeAt(TrieOf(m), p).Branch?
    ensures NodeAt(TrieOf(m), p) == At(m, p) == Branch(Below(m, p))
  {
    hide At, TrieOf, PrefixFree;
    NodeInTrie(m, p);
    BranchIsBelow(m, p);
  }

  lemma AdoptedRetained(cfg: Config, t: Trie, p: Nibbles)
    requires Canonical(t) && !NodeAt(t, p).Empty? && (cfg.Matches(p) || AdoptedAt(cfg, t, [], p))
    ensures var nodes := Run(cfg, PostOrder(t, [])).nodes;
            p in nodes && nodes[p] == Encode(NodeAt(t, p))
  {
    RetainsAuthentic(cfg, t, p);
    KeepsExactly(cfg, t, [], p);
    assert [] + p == p;
    RunKeeps(cfg, t);
  }

  lemma AdoptedHere(cfg: Config, t: Trie, p: Nibbles, x: Nibble)
    requires NodeAt(t, p).Branch? && |NodeAt(t, p).children| == 16 && cfg.Matches(p)
    requires Collapses(cfg, NodeAt(t, p), p, x)
    ensures AdoptedAt(cfg, t, [], p + [x])
  {
    assert (p + [x])[..|p + [x]| - 1] == p && [] + p == p;
  }

  /** In a trie of leaves the child of a branch stands at its path. */
  lemma ChildStands(t: Trie, p: Nibbles, x: Nibble, m: Entries)
    requires PrefixFree(m) && LeavesOnly(m) && Canonical(t) && NodeAt(t, p).Branch? && Inhabited(m, p + [x])
    requires |NodeAt(t, p).children| == 16 && NodeAt(t, p).children[x] == At(m, p + [x])
    ensures NodeAt(t, p + [x]) == At(m, p + [x]) && !At(m, p + [x]).Empty? && !At(m, p + [x]).Stub?
  {
    AtCanonical(m, p + [x]);
    NoStubs(m, p + [x]);
    NodeBelow(t, p, [x]);
    NodeAtBranch(NodeAt(t, p), x, []);
    assert [x] + [] == [x];
  }

  lemma NoStubs(m: Entries, q: Nibbles)
    requires PrefixFree(m) && LeavesOnly(m)
    ensures !At(m, q).Stub?
  {
    var u := Under(m, q);
    if u != map[] {
      CommonLongest(u, q);
      CoreKind(u);
    }
  }

  lemma CollapseHolds(cfg: Config, m: Entries, p: Nibbles, x: Nibble)
    requires PrefixFree(m) && LeavesOnly(m) && cfg.keys.Some?
    requires At(m, p) == Branch(Below(m, p)) && !cfg.Matches(p + [x])
    requires Inhabited(m, p + [x]) && !cfg.keys.value.HasRemoved(p + [x])
    requires forall k | k in m && p <= k && !(p + [x] <= k) :: IsRemoved(cfg, k)
    ensures Collapses(cfg, At(m, p), p, x)
  {
    var b := At(m, p);
    AtCanonical(m, p);
    AtCanonical(m, p + [x]);
    NoStubs(m, p + [x]);
    hide At, PrefixFree, LeavesOnly, IsRemoved, LastTracked, LastTrackedChild, Inhabited, Surviving;
    hide AddedRemovedKeys.HasRemoved, Canonical;
    forall y: Nibble | y != x
      ensures LastTracked(cfg, b.children[y], p + [y]).None?
      ensures !b.children[y].Empty? ==> cfg.keys.value.HasRemoved(p + [y])
    {
      OtherRemoved(cfg, m, p, x, y);
    }
    LastIsChild(cfg, b, p, x, 16);
    assert x in StateMask(b);
    OnlySurvivor(cfg.keys.value, p, StateMask(b), x);
  }

  lemma OnlySurvivor(keys: AddedRemovedKeys, p: Nibbles, mask: Mask, x: Nibble)
    requires x in mask && !keys.HasRemoved(p + [x])
    requires forall y: Nibble | y in mask && y != x :: keys.HasRemoved(p + [y])
    ensures Surviving(keys, p, mask) == {x}
  {
  }

  lemma OtherRemoved(cfg: Config, m: Entries, p: Nibbles, x: Nibble, y: Nibble)
    requires PrefixFree(m) && y != x && At(m, p) == Branch(Below(m, p)) && cfg.keys.Some?
    requires forall k | k in m && p <= k && !(p + [x] <= k) :: IsRemoved(cfg, k)
    ensures LastTracked(cfg, At(m, p).children[y], p + [y]).None?
    ensures !At(m, p).children[y].Empty? ==> cfg.keys.value.HasRemoved(p + [y])
  {
    assert At(m, p).children[y] == At(m, p + [y]);
    forall k | k in m && p + [y] <= k
      ensures IsRemoved(cfg, k)
    {
      assert k[|p|] == y && p <= k;
    }
    RemovedUntracked(cfg, m, p + [y]);
    AtCanonical(m, p + [y]);
    if Inhabited(m, p + [y]) {
      var k :| k in m && p + [y] <= k;
      LeadsToRemoved(cfg, p + [y], k);
    }
  }

  // ----- When an extension splits -----

  /** When a key is added at or below a targeted extension and no removed key lies below its
      branch, that branch is retained whether or not it is a target. */
  lemma SplitRetained(cfg: Config, t: Trie, p: Nibbles)
    requires Canonical(t) && cfg.keys.Some? && NodeAt(t, p).Ext? && NodeAt(t, p).child.Branch?
    requires p == [] || exists k :: k in cfg.targets && p <= k
    requires cfg.keys.value.assumeAdded || exists w :: w in cfg.keys.value.added && p <= Unpack(w)
    requires forall w | w in cfg.keys.value.removed :: !(p + NodeAt(t, p).path <= Unpack(w))
    ensures var nodes := Run(cfg, PostOrder(t, [])).nodes; var q := p + NodeAt(t, p).path;
            q in nodes && nodes[q] == Encode(NodeAt(t, p).child)
  {
    assert cfg.Matches(p) && cfg.keys.value.IsPrefixAdded(p) && !cfg.keys.value.HasRemoved(p + NodeAt(t, p).path);
    var e := NodeAt(t, p);
    NodeAtCanonical(t, p);
    var q := p + e.path;
    ExtChildStands(t, p);
    assert q[..|p|] == p && q[|p|..] == e.path && [] + p == p && [] + q == q;
    if !cfg.Matches(q) {
      assert SplitFrom(cfg, t, [], q, |p|);
    }
    KeepsExactly(cfg, t, [], q);
    RetainsAuthentic(cfg, t, q);
    RunKeeps(cfg, t);
  }

  lemma {:induction false} ExtChildStands(t: Trie, p: Nibbles)
    requires Canonical(t) && NodeAt(t, p).Ext? && NodeAt(t, p).child.Branch?
    ensures NodeAt(t, p + NodeAt(t, p).path) == NodeAt(t, p).child
    decreases t
  {
    var q := NodeAt(t, p).path;
    if p == [] {
      assert p + q == q == q + [];
      NodeAtExt(t, []);
    } else {
      match t
      case Ext(short, c) =>
        assert (p + q)[|short|..] == p[|short|..] + q;
        ExtChildStands(c, p[|short|..]);
      case Branch(ch) =>
        assert (p + q)[1..] == p[1..] + q;
        ExtChildStands(ch[p[0]], p[1..]);
    }
  }
}
