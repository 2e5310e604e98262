/** Picking a key's proof out of the retained nodes, and that it verifies. */
module ProofNodes {
  import opened Primitives
  import opened Tries
  import opened Traversal
  import opened Locations
  import opened TrieNodes
  import opened Lookups
  import opened Verify
  import opened VerifySound
  import opened VerifyComplete
  import opened Retention
  import opened KeptTheorems

  type Pair = (Nibbles, Bytes)

  ghost predicate Ascending(r: seq<Pair>) {
    forall i, j | 0 <= i < j < |r| :: Less(r[i].0, r[j].0)
  }

  /** r lists the nodes whose paths are prefixes of the target, in ascending order of path. */
  ghost predicate Matching(nodes: map<Nibbles, Bytes>, target: Nibbles, r: seq<Pair>) {
    Ascending(r) && forall p: Pair :: p in r <==> p.0 in nodes && nodes[p.0] == p.1 && p.0 <= target
  }

  lemma LessTotal(a: Nibbles, b: Nibbles)
    requires a != b
    ensures Less(a, b) || Less(b, a)
  {
    var n := CommonPrefixLength(a, b);
    CommonPrefixUnique(b, a, n);
    assert a[..|a|] == a && b[..|b|] == b;
  }

  lemma LessAsymmetric(a: Nibbles, b: Nibbles)
    requires Less(a, b)
    ensures !Less(b, a)
  {
    var n := CommonPrefixLength(a, b);
    CommonPrefixUnique(b, a, n);
  }

  /** Puts a pair in its place among ascending ones. */
  method Insert(r: seq<Pair>, item: Pair) returns (s: seq<Pair>)
    requires Ascending(r) && forall i | 0 <= i < |r| :: r[i].0 != item.0
    ensures Ascending(s) && forall p: Pair :: p in s <==> p in r || p == item
  {
    var k := 0;
    while k < |r| && Less(r[k].0, item.0)
      invariant k <= |r| && forall i | 0 <= i < k :: Less(r[i].0, item.0)
    {
      k := k + 1;
    }
    s := r[..k] + [item] + r[k..];
    forall i | k <= i < |r|
      ensures Less(item.0, r[i].0)
    {
      LessTotal(item.0, r[k].0);
      if k < i {
        LessTransitive(item.0, r[k].0, r[i].0);
      }
    }
    assert r == r[..k] + r[k..];
  }

  /** `matching_nodes_sorted`: the nodes on the target's path, root first. */
  method MatchingNodesSorted(nodes: map<Nibbles, Bytes>, target: Nibbles) returns (r: seq<Pair>)
    ensures Matching(nodes, target, r)
  {
    r := [];
    var rest := nodes.Keys;
    while rest != {}
      invariant rest <= nodes.Keys && Ascending(r)
      invariant forall p: Pair :: p in r <==> p.0 in nodes.Keys - rest && nodes[p.0] == p.1 && p.0 <= target
      decreases rest
    {
      var p :| p in rest;
      if p <= target {
        assert forall i | 0 <= i < |r| :: r[i] in r;
        r := Insert(r, (p, nodes[p]));
      }
      rest := rest - {p};
    }
  }

  // ----- The listing is the chain -----

  lemma {:induction false} AscendingUnique(a: seq<Pair>, b: seq<Pair>)
    requires Ascending(a) && Ascending(b) && forall p: Pair :: p in a <==> p in b
    ensures a == b
  {
    if a == [] {
      assert forall i | 0 <= i < |b| :: b[i] in b;
    } else {
      assert a[0] in b;
      SameFirst(a, b);
      forall p: Pair
        ensures p in a[1..] <==> p in b[1..]
      {
        RestHas(a, p);
        RestHas(b, p);
      }
      AscendingUnique(a[1..], b[1..]);
      assert a == [a[0]] + a[1..] && b == [b[0]] + b[1..];
    }
  }

  lemma SameFirst(a: seq<Pair>, b: seq<Pair>)
    requires Ascending(a) && Ascending(b) && a != [] && b != [] && a[0] in b && b[0] in a
    ensures a[0] == b[0]
  {
    var i :| 0 <= i < |b| && b[i] == a[0];
    var j :| 0 <= j < |a| && a[j] == b[0];
    if i > 0 && j > 0 {
      LessAsymmetric(a[0].0, b[0].0);
    }
  }

  lemma RestHas(a: seq<Pair>, p: Pair)
    requires Ascending(a) && a != []
    ensures p in a[1..] <==> p in a && p != a[0]
  {
    LessIrreflexive(a[0].0);
    if p in a && p != a[0] {
      var i :| 0 <= i < |a| && a[i] == p;
      assert p == a[1..][i - 1];
    }
  }

  ghost function Pairs(items: seq<Placed>): (r: seq<Pair>)
    ensures |r| == |items| && forall i | 0 <= i < |r| :: r[i] == (items[i].path, Encode(items[i].node))
  {
    seq(|items|, i requires 0 <= i < |items| => (items[i].path, Encode(items[i].node)))
  }

  /** The chain goes strictly down the key's path. */
  lemma {:induction false} ChainAscends(t: Trie, w: Nibbles, key: Nibbles)
    requires Proper(t) && w <= key
    ensures var c := Chain(t, w, key);
            && (forall i | 0 <= i < |c| :: w <= c[i].path)
            && (forall i | 0 <= i < |c| :: c[i].path <= key)
            && (forall i, j | 0 <= i < j < |c| :: |c[i].path| < |c[j].path|)
    decreases t
  {
    hide Encode;
    OnPathFacts(t, w, key);
    var next := OnPath(t, w, key);
    if next.Some? {
      var (c, w2) := next.value;
      ChainAscends(c, w2, key);
      assert |w| < |w2| && w <= w2;
    }
  }

  lemma ShorterIsLess(a: Nibbles, b: Nibbles, key: Nibbles)
    requires a <= key && b <= key && |a| < |b|
    ensures Less(a, b)
  {
    CommonPrefixUnique(a, b, |a|);
  }

  /** Exactly the nodes at prefixes of the key are on the chain. */
  lemma {:induction false} ChainStands(t: Trie, w: Nibbles, key: Nibbles, p: Nibbles)
    requires Proper(t) && w <= p <= key
    ensures !NodeAt(t, p[|w|..]).Empty? ==> Placed(p, NodeAt(t, p[|w|..])) in Chain(t, w, key)
    ensures forall n | Placed(p, n) in Chain(t, w, key) :: n == NodeAt(t, p[|w|..]) && !n.Empty?
    decreases t
  {
    hide Encode;
    ChainAscends(t, w, key);
    OnPathFacts(t, w, key);
    ChainHead(t, w, key);
    if p == w {
      assert p[|w|..] == [];
      OnlyHead(t, w, key);
    } else {
      var next := OnPath(t, w, key);
      if next.Some? {
        var (c, w2) := next.value;
        ChainAscends(c, w2, key);
        if w2 <= p {
          ChainStands(c, w2, key, p);
          NodeAtOnPath(t, w, key, p);
        } else {
          NodeAtBetween(t, w, key, p);
        }
      } else {
        NodeAtNowhere(t, w, key, p);
      }
    }
  }

  lemma OnlyHead(t: Trie, w: Nibbles, key: Nibbles)
    requires Proper(t) && w <= key
    ensures Placed(w, t) in Chain(t, w, key) && forall n | Placed(w, n) in Chain(t, w, key) :: n == t
  {
    hide Encode;
    ChainAscends(t, w, key);
    ChainHead(t, w, key);
    var c := Chain(t, w, key);
    forall n | Placed(w, n) in c
      ensures n == t
    {
      var i :| 0 <= i < |c| && c[i] == Placed(w, n);
      assert c[0].path == c[i].path;
    }
  }

  lemma NodeAtOnPath(t: Trie, w: Nibbles, key: Nibbles, p: Nibbles)
    requires Proper(t) && w <= key && OnPath(t, w, key).Some? && OnPath(t, w, key).value.1 <= p <= key
    ensures var (c, w2) := OnPath(t, w, key).value; NodeAt(t, p[|w|..]) == NodeAt(c, p[|w2|..])
  {
    var (c, w2) := OnPath(t, w, key).value;
    assert t.Branch? ==> |t.children| == 16;
    hide Proper, NodeAt;
    match t
    case Ext(q, _) =>
      assert p[|w|..] == q + p[|w2|..];
      NodeAtExt(t, p[|w2|..]);
    case Branch(ch) =>
      assert p[|w|..] == [key[|w|]] + p[|w2|..];
      NodeAtBranch(t, key[|w|], p[|w2|..]);
  }

  lemma NodeAtBetween(t: Trie, w: Nibbles, key: Nibbles, p: Nibbles)
    requires Proper(t) && w <= p <= key && p != w && OnPath(t, w, key).Some? && !(OnPath(t, w, key).value.1 <= p)
    ensures NodeAt(t, p[|w|..]).Empty?
  {
    var w2 := OnPath(t, w, key).value.1;
    PrefixesCompare(w2, p, key);
    PrefixesCompare(p, w2, key);
  }

  lemma NodeAtNowhere(t: Trie, w: Nibbles, key: Nibbles, p: Nibbles)
    requires Proper(t) && w <= p <= key && p != w && OnPath(t, w, key).None?
    ensures NodeAt(t, p[|w|..]).Empty?
  {
    var q := p[|w|..];
    match t
    case Ext(short, _) =>
      assert short <= q ==> w + short <= p;
    case Branch(ch) =>
      assert q[0] == p[|w|] == key[|w|];
    case _ =>
  }

  /** The sorted listing of the retained nodes on a target's path is the chain to the target. */
  lemma ListingIsChain(t: Trie, cfg: Config, key: Nibbles, r: seq<Pair>)
    requires Proper(t) && key in cfg.targets
    requires Matching(Run(cfg, PostOrder(t, [])).nodes, key, r)
    ensures r == Pairs(Chain(t, [], key))
  {
    hide Encode, Run, Chain, NodeAt, PostOrder, Proper;
    var nodes := Run(cfg, PostOrder(t, [])).nodes;
    var chain := Chain(t, [], key);
    PairsAscend(t, key);
    forall p: Pair
      ensures p in r <==> p in Pairs(chain)
    {
      PairOnChain(t, cfg, key, p);
    }
    AscendingUnique(r, Pairs(chain));
  }

  lemma PairsAscend(t: Trie, key: Nibbles)
    requires Proper(t)
    ensures Ascending(Pairs(Chain(t, [], key)))
  {
    hide Encode, Chain, Proper;
    var chain := Chain(t, [], key);
    ChainAscends(t, [], key);
    forall i, j | 0 <= i < j < |chain|
      ensures Less(chain[i].path, chain[j].path)
    {
      ChainPathAt(t, key, i);
      ChainPathAt(t, key, j);
      ShorterIsLess(chain[i].path, chain[j].path, key);
    }
  }

  lemma ChainPathAt(t: Trie, key: Nibbles, i: nat)
    requires Proper(t) && i < |Chain(t, [], key)|
    ensures Chain(t, [], key)[i].path <= key
  {
    ChainAscends(t, [], key);
  }

  lemma PairOnChain(t: Trie, cfg: Config, key: Nibbles, p: Pair)
    requires Proper(t) && key in cfg.targets
    ensures var nodes := Run(cfg, PostOrder(t, [])).nodes;
            p in Pairs(Chain(t, [], key)) <==> p.0 in nodes && nodes[p.0] == p.1 && p.0 <= key
  {
    RetainsAuthentic(cfg, t, p.0);
    assert p.0 <= key ==> cfg.Matches(p.0);
    ChainAscends(t, [], key);
    hide Encode, Run, Chain, NodeAt, PostOrder, Proper, Canonical;
    var chain := Chain(t, [], key);
    forall i | 0 <= i < |chain|
      ensures Pairs(chain)[i].0 == chain[i].path <= key
    {
      ChainPathAt(t, key, i);
    }
    if p.0 <= key {
      ChainStands(t, [], key, p.0);
      assert p.0[0..] == p.0;
      var n := NodeAt(t, p.0);
      if Placed(p.0, n) in chain {
        var i :| 0 <= i < |chain| && chain[i] == Placed(p.0, n);
        assert Pairs(chain)[i] == (p.0, Encode(n));
      }
      if p in Pairs(chain) {
        var i :| 0 <= i < |chain| && Pairs(chain)[i] == p;
        assert Placed(p.0, chain[i].node) in chain;
      }
    }
  }

  /** Every node on the key's path has at least 32 bytes. */
  ghost predicate LongOnPath(t: Trie, key: Nibbles) {
    forall p: Nibbles | p <= key && !NodeAt(t, p).Empty? :: |Encode(NodeAt(t, p))| >= 32
  }

  ghost function Seconds(r: seq<Pair>): (bs: seq<Bytes>)
    ensures |bs| == |r| && forall i | 0 <= i < |r| :: bs[i] == r[i].1
  {
    seq(|r|, i requires 0 <= i < |r| => r[i].1)
  }

  /** The proof retained for a target verifies - its value when it is present, its absence when it
      is not - exactly when every node on its path has at least 32 bytes. */
  lemma RetainedProofVerifies(m: Entries, cfg: Config, key: Nibbles, r: seq<Pair>)
    requires PrefixFree(m) && LeavesOnly(m) && m != map[] && Fits(TrieOf(m)) && key in cfg.targets
    requires Matching(Run(cfg, PostOrder(TrieOf(m), [])).nodes, key, r)
    ensures VerifyProof(RootHash(TrieOf(m)), key, Get(m, key), Seconds(r)) == Accepted <==>
            LongOnPath(TrieOf(m), key)
  {
    hide Encode, Run, Chain, NodeAt, PostOrder, TrieOf, Proper;
    ProperTrie(m);
    var t := TrieOf(m);
    ListingIsChain(t, cfg, key, r);
    LookupIsGet(m, key);
    CompleteExactly(t, key);
    assert Seconds(r) == Encodings(Chain(t, [], key));
    ChainLengths(t, key);
  }

  lemma ChainLengths(t: Trie, key: Nibbles)
    requires Proper(t)
    ensures AllHashed(Chain(t, [], key)) <==>
            LongOnPath(t, key)
  {
    hide Encode, Chain, NodeAt, Proper;
    var chain := Chain(t, [], key);
    ChainAscends(t, [], key);
    if AllHashed(chain) {
      forall p: Nibbles | p <= key && !NodeAt(t, p).Empty?
        ensures |Encode(NodeAt(t, p))| >= 32
      {
        ChainStands(t, [], key, p);
        assert p[0..] == p;
        var i :| 0 <= i < |chain| && chain[i] == Placed(p, NodeAt(t, p));
      }
    }
    if LongOnPath(t, key) {
      forall i | 0 <= i < |chain|
        ensures |Encode(chain[i].node)| >= 32
      {
        var p := chain[i].path;
        assert Placed(p, chain[i].node) in chain;
        ChainStands(t, [], key, p);
        assert p[0..] == p;
      }
    }
  }
}
