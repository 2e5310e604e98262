/** The retained nodes told from the targets and the added and removed keys alone: which nodes of a
    trie are kept, said without the retainer's own predicates. */
module KeptPromises {
  import opened Primitives
  import opened HexPrefixes
  import opened Tries
  import opened Traversal
  import opened Locations
  import opened Retention
  import opened Kept
  import opened KeptExactly
  import opened KeptTheorems

  /** The path is on the way to a target; the root always is. */
  ghost predicate OnTarget(targets: seq<Nibbles>, p: Nibbles) {
    p == [] || exists k :: k in targets && p <= k
  }

  /** The path is on the way neither to a target nor to a removed key. */
  ghost predicate Untouched(targets: seq<Nibbles>, keys: AddedRemovedKeys, p: Nibbles) {
    !OnTarget(targets, p) && !LeadsTo(keys.removed, p)
  }

  /** q is a branch on the way to a target, x its only child on the way to no removed key, and
      nothing untouched stands below a later child. */
  ghost predicate LastChildLeft(targets: seq<Nibbles>, keys: AddedRemovedKeys, t: Trie, q: Nibbles, x: Nibble) {
    && NodeAt(t, q).Branch? && |NodeAt(t, q).children| == 16
    && OnTarget(targets, q) && Untouched(targets, keys, q + [x])
    && (forall y: Nibble | y != x && !NodeAt(t, q).children[y].Empty? :: LeadsTo(keys.removed, q + [y]))
    && (forall y: Nibble, s: Nibbles | x < y && !NodeAt(t, q + [y] + s).Empty? ::
          !Untouched(targets, keys, q + [y] + s))
  }

  /** p is the untouched branch below an extension on the way to a target, at or below which keys
      are added. */
  ghost predicate BelowExtension(targets: seq<Nibbles>, keys: AddedRemovedKeys, t: Trie, q: Nibbles, p: Nibbles) {
    && NodeAt(t, q).Ext? && q + NodeAt(t, q).path == p && NodeAt(t, q).child.Branch?
    && OnTarget(targets, q) && Untouched(targets, keys, p)
    && (keys.assumeAdded || LeadsTo(keys.added, q))
  }

  /** The configuration's predicates say what their names say. */
  lemma Means(targets: seq<Nibbles>, keys: AddedRemovedKeys, p: Nibbles)
    ensures var cfg := Config(targets, Some(keys));
            && (cfg.Matches(p) <==> OnTarget(targets, p))
            && (keys.HasRemoved(p) <==> LeadsTo(keys.removed, p))
            && (keys.IsPrefixAdded(p) <==> keys.assumeAdded || LeadsTo(keys.added, p))
            && (Tracked(cfg, p) <==> Untouched(targets, keys, p))
  {
  }

  /** Without added and removed keys, the nodes on the way to a target are kept and no others. */
  lemma TargetsRetainedExactly(targets: seq<Nibbles>, t: Trie, p: Nibbles)
    requires Canonical(t)
    ensures var nodes := Run(Config(targets, None), PostOrder(t, [])).nodes;
            && (p in nodes <==> !NodeAt(t, p).Empty? && OnTarget(targets, p))
            && (p in nodes ==> nodes[p] == Encode(NodeAt(t, p)))
  {
    var cfg := Config(targets, None);
    assert cfg.Matches(p) <==> OnTarget(targets, p);
    hide PostOrder, NodeAt, Canonical, Encode, Keep, Run;
    RunKeeps(cfg, t);
    KeepsExactly(cfg, t, [], p);
    assert [] + p == p;
    RetainsAuthentic(cfg, t, p);
  }

  /** With added and removed keys, a node is kept exactly when it is on the way to a target, or is
      the last child left of a branch on the way to one, or the branch below an extension on the
      way to one where keys are added. */
  lemma RetainedExactly(targets: seq<Nibbles>, keys: AddedRemovedKeys, t: Trie, p: Nibbles)
    requires Canonical(t)
    ensures var nodes := Run(Config(targets, Some(keys)), PostOrder(t, [])).nodes;
            && (p in nodes <==>
                && !NodeAt(t, p).Empty?
                && (|| OnTarget(targets, p)
                    || (p != [] && LastChildLeft(targets, keys, t, p[..|p| - 1], p[|p| - 1]))
                    || exists q :: BelowExtension(targets, keys, t, q, p)))
            && (p in nodes ==> nodes[p] == Encode(NodeAt(t, p)))
  {
    var cfg := Config(targets, Some(keys));
    Means(targets, keys, p);
    hide PostOrder, NodeAt, Canonical, Encode, Keep, Run, OnTarget, LastChildLeft, BelowExtension, AdoptedAt, SplitAt;
    hide Config.Matches;
    RunKeeps(cfg, t);
    KeepsExactly(cfg, t, [], p);
    assert [] + p == p;
    RetainsAuthentic(cfg, t, p);
    if p != [] {
      AdoptedMeans(targets, keys, t, p);
    } else {
      NothingAdopted(cfg, t);
    }
    SplitMeans(targets, keys, t, p);
  }

  lemma NothingAdopted(cfg: Config, t: Trie)
    ensures !AdoptedAt(cfg, t, [], [])
  {
  }

  lemma AdoptedMeans(targets: seq<Nibbles>, keys: AddedRemovedKeys, t: Trie, p: Nibbles)
    requires Canonical(t) && p != []
    ensures !NodeAt(t, p).Empty? ==>
              (AdoptedAt(Config(targets, Some(keys)), t, [], p) <==>
               LastChildLeft(targets, keys, t, p[..|p| - 1], p[|p| - 1]))
  {
    hide NodeAt, Canonical, Collapses, Untouched, OnTarget, LeadsTo, LastChildLeft, Config.Matches;
    var q, x := p[..|p| - 1], p[|p| - 1];
    assert p == q + [x] && [] + q == q;
    Means(targets, keys, q);
    if NodeAt(t, q).Branch? && !NodeAt(t, p).Empty? && OnTarget(targets, q) {
      NodeAtCanonical(t, q);
      BranchesWide(t, q);
      CollapseMeans(targets, keys, t, q, x);
    } else {
      LeftNeeds(targets, keys, t, q, x);
    }
  }

  lemma LeftNeeds(targets: seq<Nibbles>, keys: AddedRemovedKeys, t: Trie, q: Nibbles, x: Nibble)
    ensures LastChildLeft(targets, keys, t, q, x) ==> NodeAt(t, q).Branch? && OnTarget(targets, q)
  {
  }

  lemma CollapseMeans(targets: seq<Nibbles>, keys: AddedRemovedKeys, t: Trie, q: Nibbles, x: Nibble)
    requires Canonical(t) && NodeAt(t, q).Branch? && |NodeAt(t, q).children| == 16 && Canonical(NodeAt(t, q))
    requires !NodeAt(t, q + [x]).Empty? && OnTarget(targets, q)
    ensures Collapses(Config(targets, Some(keys)), NodeAt(t, q), q, x) <==> LastChildLeft(targets, keys, t, q, x)
  {
    var cfg := Config(targets, Some(keys));
    var b := NodeAt(t, q);
    CollapsesExactly(cfg, b, q, x);
    forall y: Nibble, s: Nibbles
      ensures NodeAt(t, q + [y] + s) == NodeAt(b.children[y], s)
      ensures Tracked(cfg, q + [y] + s) <==> Untouched(targets, keys, q + [y] + s)
    {
      assert q + [y] + s == q + ([y] + s);
      NodeBelow(t, q, [y] + s);
      NodeAtBranch(b, y, s);
      Means(targets, keys, q + [y] + s);
    }
    assert q + [x] + [] == q + [x];
    Means(targets, keys, q + [x]);
    hide NodeAt, Canonical, Collapses, Untouched, Tracked;
    SurvivorMeans(targets, keys, q, b, x);
  }

  lemma SurvivorMeans(targets: seq<Nibbles>, keys: AddedRemovedKeys, q: Nibbles, b: Trie, x: Nibble)
    requires b.Branch? && |b.children| == 16 && !b.children[x].Empty?
    ensures Surviving(keys, q, StateMask(b)) == {x} <==>
            && !LeadsTo(keys.removed, q + [x])
            && forall y: Nibble | y != x && !b.children[y].Empty? :: LeadsTo(keys.removed, q + [y])
  {
    forall y: Nibble
      ensures y in Surviving(keys, q, StateMask(b)) <==> !b.children[y].Empty? && !LeadsTo(keys.removed, q + [y])
    {
      Means(targets, keys, q + [y]);
    }
    hide LeadsTo, Surviving;
    var s := Surviving(keys, q, StateMask(b));
    if s == {x} {
      assert x in s;
    }
  }

  lemma SplitMeans(targets: seq<Nibbles>, keys: AddedRemovedKeys, t: Trie, p: Nibbles)
    requires Canonical(t)
    ensures SplitAt(Config(targets, Some(keys)), t, [], p) <==> exists q :: BelowExtension(targets, keys, t, q, p)
  {
    var cfg := Config(targets, Some(keys));
    hide BelowExtension, SplitFrom;
    if SplitAt(cfg, t, [], p) {
      var n: nat :| SplitFrom(cfg, t, [], p, n);
      SplitFromMeans(targets, keys, t, p, n);
    }
    if q :| BelowExtension(targets, keys, t, q, p) {
      ExtensionShorter(targets, keys, t, q, p);
      SplitFromMeans(targets, keys, t, p, |q|);
    }
  }

  lemma ExtensionShorter(targets: seq<Nibbles>, keys: AddedRemovedKeys, t: Trie, q: Nibbles, p: Nibbles)
    requires Canonical(t) && BelowExtension(targets, keys, t, q, p)
    ensures |q| < |p| && p[..|q|] == q
  {
    NodeAtCanonical(t, q);
  }

  lemma SplitFromMeans(targets: seq<Nibbles>, keys: AddedRemovedKeys, t: Trie, p: Nibbles, n: nat)
    requires Canonical(t)
    ensures SplitFrom(Config(targets, Some(keys)), t, [], p, n) <==>
            n < |p| && BelowExtension(targets, keys, t, p[..n], p)
  {
    if n < |p| {
      var q := p[..n];
      assert q + p[n..] == p && [] + q == q;
      Means(targets, keys, q);
      Means(targets, keys, p);
      var e := NodeAt(t, q);
      if e.Ext? {
        assert q + e.path == p <==> e.path == p[n..];
      }
    }
  }

  // ----- An extension where no key is added -----

  /** When no key is added at or below an extension, the branch below it is kept only as a target. */
  lemma UnsplitDropped(targets: seq<Nibbles>, keys: AddedRemovedKeys, t: Trie, p: Nibbles)
    requires Canonical(t) && NodeAt(t, p).Ext? && NodeAt(t, p).child.Branch?
    requires !keys.assumeAdded && forall w | w in keys.added :: !(p <= Unpack(w))
    ensures var nodes := Run(Config(targets, Some(keys)), PostOrder(t, [])).nodes; var q := p + NodeAt(t, p).path;
            q in nodes <==> exists k :: k in targets && q <= k
  {
    hide NodeAt, Canonical, Run, PostOrder, Encode, LastChildLeft, BelowExtension;
    var q := p + NodeAt(t, p).path;
    ExtensionNonempty(t, p);
    ExtChildStands(t, p);
    assert q != [] && !LeadsTo(keys.added, p);
    RetainedExactly(targets, keys, t, q);
    NotLastChild(targets, keys, t, p);
    forall r
      ensures !BelowExtension(targets, keys, t, r, q)
    {
      OnlyAbove(targets, keys, t, p, r);
    }
  }

  lemma ExtensionNonempty(t: Trie, p: Nibbles)
    requires Canonical(t) && NodeAt(t, p).Ext?
    ensures NodeAt(t, p).path != []
  {
    NodeAtCanonical(t, p);
  }

  /** Nothing stands inside an extension. */
  lemma InsideExtension(t: Trie, p: Nibbles, s: Nibbles)
    requires Canonical(t) && NodeAt(t, p).Ext? && s < NodeAt(t, p).path && s != []
    ensures NodeAt(t, p + s).Empty?
  {
    NodeBelow(t, p, s);
  }

  /** The node below an extension is no branch's child. */
  lemma NotLastChild(targets: seq<Nibbles>, keys: AddedRemovedKeys, t: Trie, p: Nibbles)
    requires Canonical(t) && NodeAt(t, p).Ext? && NodeAt(t, p).path != []
    ensures var q := p + NodeAt(t, p).path; !LastChildLeft(targets, keys, t, q[..|q| - 1], q[|q| - 1])
  {
    var short := NodeAt(t, p).path;
    var q := p + short;
    var s := short[..|short| - 1];
    assert q[..|q| - 1] == p + s;
    hide NodeAt, Canonical;
    if s == [] {
      assert p + s == p;
    } else {
      InsideExtension(t, p, s);
    }
  }

  lemma OnlyAbove(targets: seq<Nibbles>, keys: AddedRemovedKeys, t: Trie, p: Nibbles, r: Nibbles)
    requires Canonical(t) && NodeAt(t, p).Ext? && NodeAt(t, p).path != []
    requires !keys.assumeAdded && !LeadsTo(keys.added, p)
    ensures !BelowExtension(targets, keys, t, r, p + NodeAt(t, p).path)
  {
    hide NodeAt, Canonical, Untouched, OnTarget, LeadsTo;
    if BelowExtension(targets, keys, t, r, p + NodeAt(t, p).path) {
      OneExtension(t, p, r);
    }
  }

  /** Only one extension stands above the node below it. */
  lemma OneExtension(t: Trie, p: Nibbles, r: Nibbles)
    requires Canonical(t) && NodeAt(t, p).Ext? && NodeAt(t, r).Ext?
    requires p + NodeAt(t, p).path == r + NodeAt(t, r).path
    ensures p == r
  {
    NodeAtCanonical(t, p);
    NodeAtCanonical(t, r);
    if |p| < |r| {
      NotBetween(t, p, r);
    } else if |r| < |p| {
      NotBetween(t, r, p);
    } else {
      var q := p + NodeAt(t, p).path;
      assert p == q[..|p|] && r == q[..|r|];
    }
  }

  lemma NotBetween(t: Trie, p: Nibbles, r: Nibbles)
    requires Canonical(t) && NodeAt(t, p).Ext? && NodeAt(t, r).Ext? && |p| < |r| && NodeAt(t, r).path != []
    ensures p + NodeAt(t, p).path != r + NodeAt(t, r).path
  {
    hide NodeAt, Canonical;
    var a, b := NodeAt(t, p).path, NodeAt(t, r).path;
    if p + a == r + b {
      var s := a[..|r| - |p|];
      Overlap(p, a, r, b);
      InsideExtension(t, p, s);
    }
  }

  lemma Overlap(p: Nibbles, a: Nibbles, r: Nibbles, b: Nibbles)
    requires p + a == r + b && |p| < |r| && b != []
    ensures |r| - |p| < |a| && r == p + a[..|r| - |p|]
  {
    assert r == (r + b)[..|r|];
    assert (p + a)[..|r|] == p + a[..|r| - |p|];
  }
}
