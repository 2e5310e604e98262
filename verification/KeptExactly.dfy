/** The kept nodes path by path: a node is kept exactly when it is on a target's path, or is the
    child a targeted branch may collapse into, or is the branch a targeted extension may split
    off; and what is kept is the node's own encoding. */
module KeptExactly {
  import opened Primitives
  import opened Tries
  import opened Traversal
  import opened Locations
  import opened Retention
  import opened Kept

  // ----- Where kept nodes stand -----

  /** Every kept pair is a node of the trie, under its path, with its encoding. */
  lemma {:induction false} KeepStands(cfg: Config, t: Trie, path: Nibbles, k: Nibbles)
    requires Canonical(t) && k in Keep(cfg, t, path)
    ensures path <= k && !NodeAt(t, k[|path|..]).Empty?
    ensures Keep(cfg, t, path)[k] == Encode(NodeAt(t, k[|path|..]))
    decreases t, 17
  {
    hide Encode, Collapses;
    match t
    case Leaf(_, _) =>
    case Ext(q, c) =>
      if k == path + q {
        assert k[|path|..] == q + [];
        NodeAtExt(t, []);
      }
      if k in Keep(cfg, c, path + q) {
        KeepStands(cfg, c, path + q, k);
        assert k[|path|..] == q + k[|path + q|..];
        NodeAtExt(t, k[|path + q|..]);
      }
    case Branch(ch) =>
      if k in Adopted(cfg, t, path) {
        AdoptedStands(cfg, t, path, k);
      }
      if k in KeepChildren(cfg, t, path, 16) {
        KeepChildStands(cfg, t, path, k, 16);
      }
  }

  lemma AdoptedStands(cfg: Config, t: Trie, path: Nibbles, k: Nibbles)
    requires t.Branch? && Canonical(t) && k in Adopted(cfg, t, path)
    ensures |k| == |path| + 1 && path <= k && cfg.Matches(path) && Collapses(cfg, t, path, k[|path|])
    ensures !NodeAt(t, k[|path|..]).Empty? && Adopted(cfg, t, path)[k] == Encode(NodeAt(t, k[|path|..]))
  {
    var x: Nibble :| Collapses(cfg, t, path, x) && Adopted(cfg, t, path) == map[path + [x] := Encode(t.children[x])];
    LastTrackedChildBelow(cfg, t, path, 16);
    NodeAtBranch(t, x, []);
    assert k[|path|..] == [x] + [];
  }

  lemma {:induction false} KeepChildStands(cfg: Config, t: Trie, path: Nibbles, k: Nibbles, hi: nat)
    requires t.Branch? && Canonical(t) && hi <= 16 && k in KeepChildren(cfg, t, path, hi)
    ensures |path| < |k| && path <= k && !NodeAt(t, k[|path|..]).Empty?
    ensures KeepChildren(cfg, t, path, hi)[k] == Encode(NodeAt(t, k[|path|..]))
    ensures k[|path|] < hi && k in Keep(cfg, t.children[k[|path|]], path + [k[|path|]])
    decreases t, hi
  {
    hide Encode, Keep;
    var x: Nibble := hi - 1;
    if k in Keep(cfg, t.children[x], path + [x]) {
      KeepStands(cfg, t.children[x], path + [x], k);
      assert k[|path|..] == [x] + k[|path| + 1..];
      NodeAtBranch(t, x, k[|path| + 1..]);
    } else {
      KeepChildStands(cfg, t, path, k, x);
    }
  }

  lemma {:induction false} KeepChildHas(cfg: Config, t: Trie, path: Nibbles, k: Nibbles, x: Nibble, hi: nat)
    requires t.Branch? && x < hi <= |t.children| && hi <= 16
    requires k in Keep(cfg, t.children[x], path + [x])
    ensures k in KeepChildren(cfg, t, path, hi)
  {
    if x < hi - 1 {
      KeepChildHas(cfg, t, path, k, x, hi - 1);
    }
  }

  // ----- Exactly which nodes are kept -----

  /** The node at p is the child its targeted parent branch may collapse into. */
  ghost predicate AdoptedAt(cfg: Config, t: Trie, path: Nibbles, p: Nibbles) {
    p != [] &&
    var q := p[..|p| - 1];
    var b := NodeAt(t, q);
    b.Branch? && |b.children| == 16 && cfg.Matches(path + q) && Collapses(cfg, b, path + q, p[|p| - 1])
  }

  /** The node at p is the branch below the targeted extension at p[..n]. */
  ghost predicate SplitFrom(cfg: Config, t: Trie, path: Nibbles, p: Nibbles, n: nat) {
    n < |p| &&
    var e := NodeAt(t, p[..n]);
    e.Ext? && e.path == p[n..] && cfg.Matches(path + p[..n]) && Splits(cfg, path + p[..n], e.path, e.child)
  }

  ghost predicate SplitAt(cfg: Config, t: Trie, path: Nibbles, p: Nibbles) {
    exists n: nat :: SplitFrom(cfg, t, path, p, n)
  }

  lemma AdoptedBelowBranch(cfg: Config, t: Trie, path: Nibbles, x: Nibble, p: Nibbles)
    requires t.Branch? && Canonical(t)
    ensures AdoptedAt(cfg, t, path, [x] + p) <==>
            if p == [] then cfg.Matches(path) && Collapses(cfg, t, path, x)
            else AdoptedAt(cfg, t.children[x], path + [x], p)
  {
    var full := [x] + p;
    if p == [] {
      assert full[..|full| - 1] == [] && path + [] == path;
    } else {
      assert full[..|full| - 1] == [x] + p[..|p| - 1];
      NodeAtBranch(t, x, p[..|p| - 1]);
      assert path + ([x] + p[..|p| - 1]) == path + [x] + p[..|p| - 1];
    }
  }

  lemma SplitBelowBranch(cfg: Config, t: Trie, path: Nibbles, x: Nibble, p: Nibbles)
    requires t.Branch? && Canonical(t)
    ensures SplitAt(cfg, t, path, [x] + p) <==> SplitAt(cfg, t.children[x], path + [x], p)
  {
    if SplitAt(cfg, t, path, [x] + p) {
      var n: nat :| SplitFrom(cfg, t, path, [x] + p, n);
      assert n > 0 by {
        assert ([x] + p)[..0] == [];
      }
      SplitFromBranch(cfg, t, path, x, p, n - 1);
      assert SplitFrom(cfg, t.children[x], path + [x], p, n - 1);
    }
    if SplitAt(cfg, t.children[x], path + [x], p) {
      var n: nat :| SplitFrom(cfg, t.children[x], path + [x], p, n);
      SplitFromBranch(cfg, t, path, x, p, n);
      assert SplitFrom(cfg, t, path, [x] + p, n + 1);
    }
  }

  lemma SplitFromBranch(cfg: Config, t: Trie, path: Nibbles, x: Nibble, p: Nibbles, n: nat)
    requires t.Branch? && Canonical(t)
    ensures SplitFrom(cfg, t, path, [x] + p, n + 1) <==> SplitFrom(cfg, t.children[x], path + [x], p, n)
  {
    if n < |p| {
      assert ([x] + p)[..n + 1] == [x] + p[..n];
      assert ([x] + p)[n + 1..] == p[n..];
      NodeAtBranch(t, x, p[..n]);
      assert path + ([x] + p[..n]) == path + [x] + p[..n];
    }
  }

  lemma AdoptedBelowExt(cfg: Config, t: Trie, path: Nibbles, p: Nibbles)
    requires t.Ext? && Canonical(t)
    ensures AdoptedAt(cfg, t, path, t.path + p) <==> AdoptedAt(cfg, t.child, path + t.path, p)
  {
    var q := t.path;
    var full := q + p;
    var up := full[..|full| - 1];
    if p == [] {
      assert |up| < |q|;
    } else {
      assert up == q + p[..|p| - 1];
      NodeAtExt(t, p[..|p| - 1]);
      assert path + (q + p[..|p| - 1]) == path + q + p[..|p| - 1];
    }
  }

  lemma SplitBelowExt(cfg: Config, t: Trie, path: Nibbles, p: Nibbles)
    requires t.Ext? && Canonical(t)
    ensures SplitAt(cfg, t, path, t.path + p) <==>
            SplitAt(cfg, t.child, path + t.path, p) ||
            (p == [] && cfg.Matches(path) && Splits(cfg, path, t.path, t.child))
  {
    hide SplitFrom, Splits, NodeAt, Canonical, SplitAt;
    if SplitAt(cfg, t, path, t.path + p) {
      SplitDown(cfg, t, path, p);
    }
    if SplitAt(cfg, t.child, path + t.path, p) {
      SplitUp(cfg, t, path, p);
    }
    if p == [] && cfg.Matches(path) && Splits(cfg, path, t.path, t.child) {
      SplitHere(cfg, t, path, p);
    }
  }

  lemma SplitDown(cfg: Config, t: Trie, path: Nibbles, p: Nibbles)
    requires t.Ext? && Canonical(t) && SplitAt(cfg, t, path, t.path + p)
    ensures SplitAt(cfg, t.child, path + t.path, p) ||
            (p == [] && cfg.Matches(path) && Splits(cfg, path, t.path, t.child))
  {
    hide SplitFrom, Splits, NodeAt, Canonical;
    var n: nat :| SplitFrom(cfg, t, path, t.path + p, n);
    if n >= |t.path| {
      SplitFromExt(cfg, t, path, p, n - |t.path|);
      assert SplitFrom(cfg, t.child, path + t.path, p, n - |t.path|);
    } else {
      SplitFromExt(cfg, t, path, p, n);
    }
  }

  lemma SplitUp(cfg: Config, t: Trie, path: Nibbles, p: Nibbles)
    requires t.Ext? && Canonical(t) && SplitAt(cfg, t.child, path + t.path, p)
    ensures SplitAt(cfg, t, path, t.path + p)
  {
    hide SplitFrom, Splits, NodeAt, Canonical;
    var n: nat :| SplitFrom(cfg, t.child, path + t.path, p, n);
    SplitFromExt(cfg, t, path, p, n);
    assert SplitFrom(cfg, t, path, t.path + p, |t.path| + n);
  }

  lemma SplitHere(cfg: Config, t: Trie, path: Nibbles, p: Nibbles)
    requires t.Ext? && Canonical(t) && p == [] && cfg.Matches(path) && Splits(cfg, path, t.path, t.child)
    ensures SplitAt(cfg, t, path, t.path + p)
  {
    SplitFromExt(cfg, t, path, p, 0);
    assert SplitFrom(cfg, t, path, t.path + p, 0);
  }

  lemma SplitFromExt(cfg: Config, t: Trie, path: Nibbles, p: Nibbles, n: nat)
    requires t.Ext? && Canonical(t)
    ensures SplitFrom(cfg, t, path, t.path + p, |t.path| + n) <==> SplitFrom(cfg, t.child, path + t.path, p, n)
    ensures n < |t.path| ==> (SplitFrom(cfg, t, path, t.path + p, n) <==>
                              n == 0 && p == [] && cfg.Matches(path) && Splits(cfg, path, t.path, t.child))
  {
    var q := t.path;
    if n < |p| {
      assert (q + p)[..|q| + n] == q + p[..n];
      assert (q + p)[|q| + n..] == p[n..];
      NodeAtExt(t, p[..n]);
      assert path + (q + p[..n]) == path + q + p[..n];
    }
    if n == 0 {
      assert (q + p)[..0] == [] && (q + p)[0..] == q + p && path + [] == path;
      assert q == q + p <==> p == [];
    }
  }

  /** A node is kept exactly when it is targeted, adopted or split off. */
  lemma {:induction false} KeepsExactly(cfg: Config, t: Trie, path: Nibbles, p: Nibbles)
    requires Canonical(t)
    ensures path + p in Keep(cfg, t, path) <==>
            !NodeAt(t, p).Empty? &&
            (cfg.Matches(path + p) || AdoptedAt(cfg, t, path, p) || SplitAt(cfg, t, path, p))
    decreases t
  {
    assert (path + p)[|path|..] == p;
    if path + p in Keep(cfg, t, path) {
      KeepStands(cfg, t, path, path + p);
    }
    hide Keep, AdoptedAt, SplitFrom, Collapses, Splits, Encode;
    if p == [] {
      assert path + p == path;
      RootKept(cfg, t, path);
      NothingAbove(cfg, t, path);
    } else if !NodeAt(t, p).Empty? {
      match t
      case Ext(q, c) =>
        var rest := p[|q|..];
        assert p == q + rest && path + q + rest == path + p;
        KeepsExactly(cfg, c, path + q, rest);
        AdoptedBelowExt(cfg, t, path, rest);
        SplitBelowExt(cfg, t, path, rest);
        ExtKeeps(cfg, t, path, rest);
      case Branch(ch) =>
        var x, rest := p[0], p[1..];
        assert p == [x] + rest && path + [x] + rest == path + p;
        KeepsExactly(cfg, ch[x], path + [x], rest);
        AdoptedBelowBranch(cfg, t, path, x, rest);
        SplitBelowBranch(cfg, t, path, x, rest);
        BranchKeeps(cfg, t, path, x, rest);
    }
  }

  lemma NothingAbove(cfg: Config, t: Trie, path: Nibbles)
    ensures !AdoptedAt(cfg, t, path, []) && !SplitAt(cfg, t, path, [])
  {
  }

  lemma RootKept(cfg: Config, t: Trie, path: Nibbles)
    requires Canonical(t)
    ensures path in Keep(cfg, t, path) <==> !NodeAt(t, []).Empty? && cfg.Matches(path)
  {
    match t
    case Ext(q, c) =>
      if path in Keep(cfg, c, path + q) {
        KeepStands(cfg, c, path + q, path);
      }
    case Branch(ch) =>
      if path in KeepChildren(cfg, t, path, 16) {
        KeepChildStands(cfg, t, path, path, 16);
      }
      if path in Adopted(cfg, t, path) {
        AdoptedStands(cfg, t, path, path);
      }
    case _ =>
  }

  lemma ExtKeeps(cfg: Config, t: Trie, path: Nibbles, p: Nibbles)
    requires t.Ext? && Canonical(t)
    ensures path + t.path + p in Keep(cfg, t, path) <==>
            || path + t.path + p in Keep(cfg, t.child, path + t.path)
            || (p == [] && cfg.Matches(path) && Splits(cfg, path, t.path, t.child))
  {
    var k := path + t.path + p;
    assert k != path;
    assert k == path + t.path <==> p == [];
  }

  lemma BranchKeeps(cfg: Config, t: Trie, path: Nibbles, x: Nibble, p: Nibbles)
    requires t.Branch? && Canonical(t)
    ensures path + [x] + p in Keep(cfg, t, path) <==>
            || path + [x] + p in Keep(cfg, t.children[x], path + [x])
            || (p == [] && cfg.Matches(path) && Collapses(cfg, t, path, x))
  {
    var k := path + [x] + p;
    assert k[|path|] == x && k != path;
    if k in KeepChildren(cfg, t, path, 16) {
      KeepChildStands(cfg, t, path, k, 16);
    }
    if k in Keep(cfg, t.children[x], path + [x]) {
      KeepChildHas(cfg, t, path, k, x, 16);
    }
    if k in Adopted(cfg, t, path) {
      AdoptedStands(cfg, t, path, k);
    }
    if p == [] && cfg.Matches(path) && Collapses(cfg, t, path, x) {
      CollapsesOnce(cfg, t, path, x);
      assert k == path + [x];
    }
  }

  lemma CollapsesOnce(cfg: Config, t: Trie, path: Nibbles, x: Nibble)
    requires t.Branch? && |t.children| == 16 && cfg.Matches(path) && Collapses(cfg, t, path, x)
    ensures path + [x] in Adopted(cfg, t, path)
  {
    var y: Nibble :| Collapses(cfg, t, path, y) && Adopted(cfg, t, path) == map[path + [y] := Encode(t.children[y])];
    assert x in Surviving(cfg.keys.value, path, StateMask(t));
  }
}
