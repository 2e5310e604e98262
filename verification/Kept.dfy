/** Which nodes a retainer keeps, as a function of the trie alone.  The retainer itself sees the
    nodes one by one and remembers only the last branch and the last untargeted node; these
    results say that this is enough. */
module Kept {
  import opened Primitives
  import opened Masks
  import opened Tries
  import opened Traversal
  import opened Retention

  // ----- The specification -----

  /** An untargeted node that leads to no removed key. */
  ghost predicate Tracked(cfg: Config, path: Nibbles) {
    cfg.keys.Some? && path != [] && !cfg.Matches(path) && !cfg.keys.value.HasRemoved(path)
  }

  /** The last tracked node of a subtrie in post-order. */
  ghost function LastTracked(cfg: Config, t: Trie, path: Nibbles): (r: Option<Placed>)
    decreases t, 17
  {
    match t
    case Empty => None
    case Stub(_, _) => None
    case Leaf(_, _) => if Tracked(cfg, path) then Some(Placed(path, t)) else None
    case Ext(q, c) => if Tracked(cfg, path) then Some(Placed(path, t)) else LastTracked(cfg, c, path + q)
    case Branch(ch) =>
      if Tracked(cfg, path) then Some(Placed(path, t))
      else LastTrackedChild(cfg, t, path, if |ch| < 16 then |ch| else 16)
  }

  ghost function LastTrackedChild(cfg: Config, t: Trie, path: Nibbles, hi: nat): (r: Option<Placed>)
    requires t.Branch? && hi <= |t.children| && hi <= 16
    decreases t, hi
  {
    if hi == 0 then None
    else
      var last := LastTracked(cfg, t.children[hi - 1], path + [hi - 1]);
      if last.Some? then last else LastTrackedChild(cfg, t, path, hi - 1)
  }

  /** All but one child of the branch lead to removed keys, and the surviving child is the last
      tracked node below the branch: the child the branch may collapse into. */
  ghost predicate Collapses(cfg: Config, t: Trie, path: Nibbles, x: Nibble)
    requires t.Branch? && |t.children| == 16
  {
    && cfg.keys.Some?
    && Surviving(cfg.keys.value, path, StateMask(t)) == {x}
    && LastTrackedChild(cfg, t, path, 16) == Some(Placed(path + [x], t.children[x]))
  }

  /** A key is added at or below the extension, whose branch may then be split off. */
  ghost predicate Splits(cfg: Config, path: Nibbles, short: Nibbles, child: Trie) {
    child.Branch? && Tracked(cfg, path + short) && cfg.keys.value.IsPrefixAdded(path)
  }

  ghost function Own(cfg: Config, t: Trie, path: Nibbles): (r: ProofNodes) {
    if cfg.Matches(path) then map[path := Encode(t)] else map[]
  }

  /** The nodes kept from a subtrie. */
  ghost function Keep(cfg: Config, t: Trie, path: Nibbles): (r: ProofNodes)
    decreases t, 17
  {
    match t
    case Empty => map[]
    case Stub(_, _) => map[]
    case Leaf(_, _) => Own(cfg, t, path)
    case Ext(q, c) =>
      Keep(cfg, c, path + q) + Own(cfg, t, path) +
      if cfg.Matches(path) && Splits(cfg, path, q, c) then map[path + q := Encode(c)] else map[]
    case Branch(ch) =>
      if |ch| != 16 then map[] else KeepChildren(cfg, t, path, 16) + Own(cfg, t, path) + Adopted(cfg, t, path)
  }

  ghost function Adopted(cfg: Config, t: Trie, path: Nibbles): (r: ProofNodes)
    requires t.Branch? && |t.children| == 16
  {
    if cfg.Matches(path) && exists x: Nibble :: Collapses(cfg, t, path, x) then
      var x: Nibble :| Collapses(cfg, t, path, x);
      map[path + [x] := Encode(t.children[x])]
    else map[]
  }

  ghost function KeepChildren(cfg: Config, t: Trie, path: Nibbles, hi: nat): (r: ProofNodes)
    requires t.Branch? && hi <= |t.children| && hi <= 16
    decreases t, hi
  {
    if hi == 0 then map[]
    else KeepChildren(cfg, t, path, hi - 1) + Keep(cfg, t.children[hi - 1], path + [hi - 1])
  }

  // ----- The state machine meets it -----

  lemma {:induction false} RunConcat(cfg: Config, st: State, a: seq<Placed>, b: seq<Placed>)
    ensures RunFrom(cfg, st, a + b) == RunFrom(cfg, RunFrom(cfg, st, a), b)
  {
    if b == [] {
      assert a + b == a;
    } else {
      var n := |b| - 1;
      var s := a + b;
      assert s[..|s| - 1] == a + b[..n] && s[|s| - 1] == b[n];
      RunConcat(cfg, st, a, b[..n]);
    }
  }

  lemma RunOne(cfg: Config, st: State, item: Placed)
    ensures RunFrom(cfg, st, [item]) == OnNode(cfg, st, item)
  {
    assert [item][..0] == [];
  }

  /** What the tracking remembers of the last untargeted node after a subtrie. */
  ghost predicate Remembers(before: Tracking, after: Tracking, last: Option<Placed>) {
    match last
    case None =>
      after.lastNontargetPath == before.lastNontargetPath && after.lastNontargetProof == before.lastNontargetProof
    case Some(item) =>
      after.lastNontargetPath == item.path && after.lastNontargetProof == Encode(item.node)
  }

  /** The last removed-mask test of the source, read as a question about the whole path. */
  lemma RemovedBit(keys: AddedRemovedKeys, path: Nibbles)
    requires path != []
    ensures path[|path| - 1] in keys.RemovedMask(path[..|path| - 1]) <==> keys.HasRemoved(path)
  {
    assert path[..|path| - 1] + [path[|path| - 1]] == path;
  }

  lemma MaybeTrackIs(cfg: Config, st: State, path: Nibbles, proof: Bytes)
    requires !cfg.Matches(path)
    ensures MaybeTrack(cfg, st, path, proof) ==
            if Tracked(cfg, path) then
              st.(tracking := st.tracking.(lastNontargetPath := path, lastNontargetProof := proof))
            else st
  {
    if path != [] && cfg.keys.Some? {
      RemovedBit(cfg.keys.value, path);
    }
  }

  /** The last tracked node lies in the subtrie, and at the subtrie's own path it is its root. */
  lemma {:induction false} LastTrackedBelow(cfg: Config, t: Trie, path: Nibbles)
    requires Canonical(t)
    ensures var last := LastTracked(cfg, t, path);
            last.Some? ==>
              && path <= last.value.path && Tracked(cfg, last.value.path)
              && (last.value.path == path ==> last.value.node == t)
              && !last.value.node.Empty? && !last.value.node.Stub?
    decreases t, 17
  {
    match t
    case Ext(q, c) => LastTrackedBelow(cfg, c, path + q);
    case Branch(ch) => LastTrackedChildBelow(cfg, t, path, 16);
    case _ =>
  }

  lemma {:induction false} LastTrackedChildBelow(cfg: Config, t: Trie, path: Nibbles, hi: nat)
    requires t.Branch? && Canonical(t) && hi <= 16
    ensures var last := LastTrackedChild(cfg, t, path, hi);
            last.Some? ==>
              && |path| < |last.value.path| && path <= last.value.path && last.value.path[|path|] < hi
              && Tracked(cfg, last.value.path)
              && (last.value.path == path + [last.value.path[|path|]] ==>
                    last.value.node == t.children[last.value.path[|path|]])
              && !last.value.node.Empty? && !last.value.node.Stub?
    decreases t, hi
  {
    if hi > 0 {
      LastTrackedBelow(cfg, t.children[hi - 1], path + [hi - 1]);
      LastTrackedChildBelow(cfg, t, path, hi - 1);
    }
  }

  /** last does not lie strictly below path. */
  predicate Apart(path: Nibbles, last: Nibbles) {
    !(path <= last) || last == path
  }

  lemma ExtensionChildIs(tr: Tracking, path: Nibbles, short: Nibbles)
    ensures tr.ExtensionChildIsNontarget(path, short) <==> tr.lastNontargetPath == path + short
  {
    var l := tr.lastNontargetPath;
    if tr.ExtensionChildIsNontarget(path, short) {
      assert l == l[..|path|] + l[|path|..];
    }
  }

  lemma BranchChildIs(tr: Tracking, path: Nibbles, x: Nibble)
    ensures tr.BranchChildIsNontarget(path, x) <==> tr.lastNontargetPath == path + [x]
  {
    var l := tr.lastNontargetPath;
    if tr.BranchChildIsNontarget(path, x) {
      assert l == l[..|path|] + [l[|path|]];
    }
  }

  lemma OneElement(s: Mask)
    ensures |s| == 1 <==> exists x: Nibble :: s == {x}
    ensures forall x: Nibble | s == {x} :: Lowest(s, 0) == x
  {
    if |s| == 1 {
      var x :| x in s;
      assert |s - {x}| == 0;
      assert s == {x};
    }
  }

  /** The state after a subtrie. */
  ghost predicate Done(cfg: Config, st: State, r: State, kept: ProofNodes, last: Option<Placed>) {
    r.nodes == st.nodes + kept && Remembers(st.tracking, r.tracking, last)
  }

  /** Running the retainer over a subtrie keeps exactly what the specification keeps. */
  lemma {:induction false} RunPost(cfg: Config, st: State, t: Trie, path: Nibbles)
    requires Canonical(t) && Apart(path, st.tracking.lastNontargetPath)
    ensures var r := RunFrom(cfg, st, PostOrder(t, path));
            && Done(cfg, st, r, Keep(cfg, t, path), LastTracked(cfg, t, path))
            && (t.Branch? && cfg.keys.Some? ==>
                  r.tracking.lastBranchPath == path && r.tracking.lastBranchProof == Encode(t))
    decreases t, 17
  {
    match t
    case Empty =>
    case Stub(_, _) =>
    case Leaf(_, _) =>
      RunOne(cfg, st, Placed(path, t));
      LeafNode(cfg, st, t, path);
    case Ext(q, c) =>
      RunConcat(cfg, st, PostOrder(c, path + q), [Placed(path, t)]);
      RunPost(cfg, st, c, path + q);
      var st1 := RunFrom(cfg, st, PostOrder(c, path + q));
      RunOne(cfg, st1, Placed(path, t));
      ExtensionNode(cfg, st, st1, t, path);
    case Branch(ch) =>
      RunConcat(cfg, st, PostChildren(t, path, 16), [Placed(path, t)]);
      RunChildren(cfg, st, t, path, 16);
      var st1 := RunFrom(cfg, st, PostChildren(t, path, 16));
      RunOne(cfg, st1, Placed(path, t));
      BranchNode(cfg, st, st1, t, path);
  }

  lemma {:induction false} RunChildren(cfg: Config, st: State, t: Trie, path: Nibbles, hi: nat)
    requires t.Branch? && Canonical(t) && hi <= 16 && Apart(path, st.tracking.lastNontargetPath)
    ensures Done(cfg, st, RunFrom(cfg, st, PostChildren(t, path, hi)),
                 KeepChildren(cfg, t, path, hi), LastTrackedChild(cfg, t, path, hi))
    decreases t, hi
  {
    if hi > 0 {
      var x: Nibble := hi - 1;
      RunChildren(cfg, st, t, path, x);
      var st1 := RunFrom(cfg, st, PostChildren(t, path, x));
      assert Apart(path + [x], st1.tracking.lastNontargetPath) by {
        LastTrackedChildBelow(cfg, t, path, x);
      }
      RunConcat(cfg, st, PostChildren(t, path, x), PostOrder(t.children[x], path + [x]));
      RunPost(cfg, st1, t.children[x], path + [x]);
      var r := RunFrom(cfg, st1, PostOrder(t.children[x], path + [x]));
      DoneChain(cfg, st, st1, r, KeepChildren(cfg, t, path, x), Keep(cfg, t.children[x], path + [x]),
                LastTrackedChild(cfg, t, path, x), LastTracked(cfg, t.children[x], path + [x]));
    }
  }

  lemma DoneChain(cfg: Config, st: State, st1: State, r: State, k1: ProofNodes, k2: ProofNodes,
                  l1: Option<Placed>, l2: Option<Placed>)
    requires Done(cfg, st, st1, k1, l1) && Done(cfg, st1, r, k2, l2)
    ensures Done(cfg, st, r, k1 + k2, if l2.Some? then l2 else l1)
  {
    hide Encode;
    assert (st.nodes + k1) + k2 == st.nodes + (k1 + k2);
  }

  lemma InsertOwn(a: ProofNodes, k: ProofNodes, p: Nibbles, b: Bytes)
    ensures (a + k)[p := b] == a + (k + map[p := b])
  {
  }

  lemma AddNothing(k: ProofNodes)
    ensures k + map[] == k
  {
  }

  lemma LeafNode(cfg: Config, st: State, t: Trie, path: Nibbles)
    requires t.Leaf?
    ensures Done(cfg, st, OnNode(cfg, st, Placed(path, t)), Keep(cfg, t, path), LastTracked(cfg, t, path))
  {
    if !cfg.Matches(path) {
      MaybeTrackIs(cfg, st, path, Encode(t));
    }
  }

  lemma ExtensionNode(cfg: Config, st: State, st1: State, t: Trie, path: Nibbles)
    requires t.Ext? && Canonical(t) && Apart(path, st.tracking.lastNontargetPath)
    requires Done(cfg, st, st1, Keep(cfg, t.child, path + t.path), LastTracked(cfg, t.child, path + t.path))
    requires t.child.Branch? && cfg.keys.Some? ==>
               st1.tracking.lastBranchPath == path + t.path && st1.tracking.lastBranchProof == Encode(t.child)
    ensures Done(cfg, st, OnNode(cfg, st1, Placed(path, t)), Keep(cfg, t, path), LastTracked(cfg, t, path))
  {
    var q, c := t.path, t.child;
    var own := Own(cfg, t, path);
    var split := cfg.Matches(path) && Splits(cfg, path, q, c);
    var extra := if split then map[path + q := Encode(c)] else map[];
    var kept := Keep(cfg, c, path + q);
    assert Keep(cfg, t, path) == kept + own + extra;
    var r := OnNode(cfg, st1, Placed(path, t));
    assert r == OnExtension(cfg, st1, path, q, Encode(t));
    SplitTest(cfg, st, st1, t, path);
    ExtensionChildIs(st1.tracking, path, q);
    hide Keep, Encode, Canonical, LastTracked, Splits;
    if cfg.Matches(path) {
      InsertOwn(st.nodes, kept, path, Encode(t));
      InsertOwn(st.nodes, kept + own, path + q, Encode(c));
      AddNothing(kept + own);
      assert split <==> Splits(cfg, path, q, c);
    } else {
      AddNothing(kept);
      MaybeTrackIs(cfg, st1, path, Encode(t));
    }
  }

  /** The last-nontarget test of an extension is the specification's. */
  lemma SplitTest(cfg: Config, st: State, st1: State, t: Trie, path: Nibbles)
    requires t.Ext? && Canonical(t) && Apart(path, st.tracking.lastNontargetPath)
    requires Remembers(st.tracking, st1.tracking, LastTracked(cfg, t.child, path + t.path))
    ensures st1.tracking.lastNontargetPath == path + t.path <==> t.child.Branch? && Tracked(cfg, path + t.path)
  {
    LastTrackedBelow(cfg, t.child, path + t.path);
    if t.child.Branch? {
      LastTrackedChildBelow(cfg, t.child, path + t.path, 16);
    }
  }

  lemma BranchNode(cfg: Config, st: State, st1: State, t: Trie, path: Nibbles)
    requires t.Branch? && Canonical(t) && Apart(path, st.tracking.lastNontargetPath)
    requires Done(cfg, st, st1, KeepChildren(cfg, t, path, 16), LastTrackedChild(cfg, t, path, 16))
    ensures var r := OnNode(cfg, st1, Placed(path, t));
            && Done(cfg, st, r, Keep(cfg, t, path), LastTracked(cfg, t, path))
            && (cfg.keys.Some? ==> r.tracking.lastBranchPath == path && r.tracking.lastBranchProof == Encode(t))
  {
    var own := Own(cfg, t, path);
    var kept := KeepChildren(cfg, t, path, 16);
    var extra := Adopted(cfg, t, path);
    assert Keep(cfg, t, path) == kept + own + extra;
    var r := OnNode(cfg, st1, Placed(path, t));
    assert r == OnBranch(cfg, st1, path, StateMask(t), Encode(t));
    if cfg.keys.Some? {
      CollapseTest(cfg, st, st1, t, path);
    }
    hide Keep, Encode, Canonical, LastTracked, LastTrackedChild, Surviving, StateMask;
    AddNothing(kept);
    AddNothing(kept + own);
    if cfg.Matches(path) {
      InsertOwn(st.nodes, kept, path, Encode(t));
      if exists x: Nibble :: Collapses(cfg, t, path, x) {
        var x: Nibble :| Collapses(cfg, t, path, x) && extra == map[path + [x] := Encode(t.children[x])];
        InsertOwn(st.nodes, kept + own, path + [x], Encode(t.children[x]));
      }
    } else {
      MaybeTrackIs(cfg, st1, path, Encode(t));
    }
  }

  /** The last-nontarget test of a branch is the specification's. */
  lemma CollapseTest(cfg: Config, st: State, st1: State, t: Trie, path: Nibbles)
    requires t.Branch? && Canonical(t) && Apart(path, st.tracking.lastNontargetPath) && cfg.keys.Some?
    requires Remembers(st.tracking, st1.tracking, LastTrackedChild(cfg, t, path, 16))
    ensures var s := Surviving(cfg.keys.value, path, StateMask(t));
            |s| == 1 && st1.tracking.BranchChildIsNontarget(path, Lowest(s, 0)) <==>
            exists x: Nibble :: Collapses(cfg, t, path, x)
    ensures forall x: Nibble | Collapses(cfg, t, path, x) ::
              && st1.tracking.lastNontargetPath == path + [x]
              && st1.tracking.lastNontargetProof == Encode(t.children[x])
  {
    var s := Surviving(cfg.keys.value, path, StateMask(t));
    OneElement(s);
    LastTrackedChildBelow(cfg, t, path, 16);
    if |s| == 1 {
      var x: Nibble :| s == {x};
      BranchChildIs(st1.tracking, path, x);
      assert Collapses(cfg, t, path, x) <==> st1.tracking.lastNontargetPath == path + [x];
    }
  }

  /** The nodes a retainer holds at the end of a run over a whole trie. */
  lemma RunKeeps(cfg: Config, t: Trie)
    requires Canonical(t)
    ensures Run(cfg, PostOrder(t, [])).nodes == Keep(cfg, t, [])
  {
    RunPost(cfg, NOTHING_RETAINED, t, []);
  }
}
