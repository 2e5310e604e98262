/** Proofs without the nodes encoded in place: leaving the nodes shorter than 32 bytes out of a
    key's chain gives a proof that verifies for every key. */
module VerifyInPlace {
  import opened Primitives
  import opened Tries
  import opened Traversal
  import opened TrieNodes
  import opened Lookups
  import opened Verify
  import opened Walks
  import opened VerifySound
  import opened VerifyComplete

  /** The nodes of at least 32 bytes, in order. */
  ghost function Long(items: seq<Placed>): (r: seq<Placed>) {
    if items == [] then []
    else (if |Encode(items[0].node)| >= 32 then [items[0]] else []) + Long(items[1..])
  }

  lemma LongStep(item: Placed, rest: seq<Placed>)
    ensures Long([item] + rest) == (if |Encode(item.node)| >= 32 then [item] else []) + Long(rest)
  {
    hide Encode;
    assert ([item] + rest)[1..] == rest;
  }

  /** Below a node encoded in place, everything is encoded in place. */
  lemma {:induction false} NoneLong(t: Trie, w: Nibbles, key: Nibbles)
    requires Proper(t) && w <= key && |Encode(t)| < 32
    ensures Long(Chain(t, w, key)) == []
    decreases t
  {
    OnPathFacts(t, w, key);
    match OnPath(t, w, key)
    case Some((c, w2)) =>
      ChildShorter(t, c);
      NoneLong(c, w2, key);
      hide Encode, Chain, Proper;
      LongStep(Placed(w, t), Chain(c, w2, key));
    case None =>
      hide Encode, Chain, Proper;
      LongStep(Placed(w, t), []);
      assert [Placed(w, t)] + [] == [Placed(w, t)];
  }

  /** Processing a node encoded in place answers the lookup in it. */
  lemma {:induction false} StopAnswers(t: Trie, w: Nibbles, key: Nibbles)
    requires Proper(t) && w <= key && |Encode(t)| < 32
    ensures var s := StopOf(t, w, key); (if s.walked == key then RawLast(AsLast(s)) else None) == Lookup(t, w, key)
    decreases t
  {
    OnPathFacts(t, w, key);
    match OnPath(t, w, key)
    case Some((c, w2)) =>
      ChildShorter(t, c);
      StopAnswers(c, w2, key);
      assert StopAtChild(c, w2, key) == StopOf(c, w2, key);
    case None =>
  }

  lemma {:induction false} LongAccepted(t: Trie, w: Nibbles, key: Nibbles)
    requires Proper(t) && w <= key && |Encode(t)| >= 32
    ensures Long(Chain(t, w, key)) != [] && Long(Chain(t, w, key))[0] == Placed(w, t)
    ensures var r := WalkProof(Some(Node(Reference(t))), w, key, Encodings(Long(Chain(t, w, key))));
            r.Walking? && (if r.walked == key then RawLast(r.last) else None) == Lookup(t, w, key)
    decreases t
  {
    OnPathFacts(t, w, key);
    var next := OnPath(t, w, key);
    var rest := if next.Some? then Chain(next.value.0, next.value.1, key) else [];
    assert Chain(t, w, key) == [Placed(w, t)] + rest;
    OwnNode(t, w, key);
    hide Encode, Reference, Lookup, Chain, Proper, OnPath, WalkNode, StopOf, WalkProof;
    LongStep(Placed(w, t), rest);
    EncodingsStep(Placed(w, t), Long(rest));
    WalkCons(Some(Node(Reference(t))), w, key, Encodings([Placed(w, t)] + Long(rest)));
    if next.Some? {
      var (c, w2) := next.value;
      if |Encode(c)| >= 32 {
        ChainHead(c, w2, key);
        LongAccepted(c, w2, key);
      } else {
        NoneLong(c, w2, key);
        StopAnswers(c, w2, key);
        InPlace(c, w2, key);
        WalkNothing(AsLast(StopOf(t, w, key)), StopOf(t, w, key).walked, key);
      }
    } else {
      WalkNothing(AsLast(StopOf(t, w, key)), StopOf(t, w, key).walked, key);
    }
  }

  /** The long nodes of a chain are compared with references. */
  lemma {:induction false} LongFollows(t: Trie, w: Nibbles, key: Nibbles)
    requires Proper(t) && w <= key && |Encode(t)| >= 32
    ensures NodesFollow(Some(Node(Reference(t))), w, key, Encodings(Long(Chain(t, w, key))))
    decreases t
  {
    hide Encode, Reference, Lookup, Chain, Proper, OnPath, WalkNode, StopOf, NodesFollow;
    OnPathFacts(t, w, key);
    var next := OnPath(t, w, key);
    var rest := if next.Some? then Chain(next.value.0, next.value.1, key) else [];
    assert Chain(t, w, key) == [Placed(w, t)] + rest;
    OwnNode(t, w, key);
    LongStep(Placed(w, t), rest);
    EncodingsStep(Placed(w, t), Long(rest));
    var last := AsLast(StopOf(t, w, key));
    if next.Some? && |Encode(next.value.0)| >= 32 {
      var (c, w2) := next.value;
      ChainHead(c, w2, key);
      LongFollows(c, w2, key);
    } else {
      if next.Some? {
        NoneLong(next.value.0, next.value.1, key);
      }
      assert Encodings(Long(rest)) == [];
      FollowNone(last, StopOf(t, w, key).walked, key);
    }
    FollowCons(Reference(t), w, key, Encodings([Placed(w, t)] + Long(rest)));
  }

  /** Towards any extension of a key that a short node holds, processing stops at the key's value. */
  lemma {:induction false} StopReaches(t: Trie, w: Nibbles, k: Nibbles, v: Bytes, key: Nibbles)
    requires Proper(t) && Holds(t, w, k, v) && k <= key && |Encode(t)| < 32
    ensures StopOf(t, w, key) == AtValue(v, k)
    decreases t
  {
    match t
    case Ext(p, c) =>
      ChildShorter(t, c);
      StopReaches(c, w + p, k, v, key);
    case Branch(ch) =>
      var x := k[|w|];
      assert key[|w|] == x && Lookup(ch[x], w + [x], k) == Some(v);
      ChildShorter(t, ch[x]);
      StopReaches(ch[x], w + [x], k, v, key);
    case _ =>
  }

  /** Where a key's walk goes on from one node to the next, so does that of its extensions. */
  lemma SameWay(t: Trie, w: Nibbles, k: Nibbles, v: Bytes, key: Nibbles)
    requires Proper(t) && Holds(t, w, k, v) && k <= key
    ensures OnPath(t, w, key) == OnPath(t, w, k)
    ensures match OnPath(t, w, k)
            case Some((c, w2)) => w2 <= k && Holds(c, w2, k, v) && StopOf(t, w, key) == StopAtChild(c, w2, key)
            case None => StopOf(t, w, key) == AtValue(v, k)
  {
    hide Encode;
    match t
    case Ext(p, c) => assert w + p <= k;
    case Branch(ch) => assert key[|w|] == k[|w|] && Lookup(ch[k[|w|]], w + [k[|w|]], k) == Some(v);
    case _ =>
  }

  /** The long nodes of a key's chain lead to its value even when the walk is towards an extension
      of the key. */
  lemma {:induction false} LongReaches(t: Trie, w: Nibbles, k: Nibbles, v: Bytes, key: Nibbles)
    requires Proper(t) && Holds(t, w, k, v) && k <= key && |Encode(t)| >= 32
    ensures var proof, start := Encodings(Long(Chain(t, w, k))), Some(Node(Reference(t)));
            && WalkProof(start, w, key, proof) == Walking(Some(Value(v)), k)
            && NodesFollow(start, w, key, proof)
            && proof != [] && proof[0] == Encode(t)
    decreases t
  {
    hide Encode, Reference, Lookup, Chain, Proper, OnPath, WalkNode, StopOf, WalkProof, NodesFollow;
    OnPathFacts(t, w, k);
    SameWay(t, w, k, v, key);
    var next := OnPath(t, w, k);
    var rest := if next.Some? then Chain(next.value.0, next.value.1, k) else [];
    assert Chain(t, w, k) == [Placed(w, t)] + rest;
    OwnNode(t, w, key);
    LongStep(Placed(w, t), rest);
    EncodingsStep(Placed(w, t), Long(rest));
    var proof := Encodings([Placed(w, t)] + Long(rest));
    if next.Some? && |Encode(next.value.0)| >= 32 {
      var (c, w2) := next.value;
      ChainHead(c, w2, key);
      LongReaches(c, w2, k, v, key);
    } else {
      if next.Some? {
        NoneLong(next.value.0, next.value.1, k);
        StopReaches(next.value.0, next.value.1, k, v, key);
        InPlace(next.value.0, next.value.1, key);
      }
      assert Encodings(Long(rest)) == Encodings([]);
      assert Encodings([]) == [];
      WalkNothing(Some(Value(v)), k, key);
      FollowNone(Some(Value(v)), k, key);
    }
    WalkCons(Some(Node(Reference(t))), w, key, proof);
    FollowCons(Reference(t), w, key, proof);
  }

  lemma WalkNothing(last: Option<NodeDecodingResult>, w: Nibbles, key: Nibbles)
    ensures WalkProof(last, w, key, Encodings([])) == Walking(last, w)
  {
  }

  /** The nodes of a key's chain that are referred to by hash prove what the trie maps the key to,
      for every key, when the root itself is long. */
  lemma LongProof(t: Trie, key: Nibbles)
    requires Proper(t) && |Encode(t)| >= 32
    ensures VerifyProof(RootHash(t), key, Lookup(t, [], key), Encodings(Long(Chain(t, [], key)))) == Accepted
  {
    NotEmptyString(t);
    LongAccepted(t, [], key);
    assert Reference(t) == WordRlp(RootHash(t));
  }

  /** When the root is short, no proof is accepted, for any key and any expected value. */
  lemma ShortRootAcceptsNothing(t: Trie, key: Nibbles, expected: Option<Bytes>, proof: seq<Bytes>)
    requires Proper(t) && |Encode(t)| < 32 && Clashless(t, proof) && NoClash(t, [EMPTY_STRING_CODE])
    ensures VerifyProof(RootHash(t), key, expected, proof) != Accepted
  {
    NotEmptyRoot(t);
    if proof != [] {
      assert proof[0] in proof;
      ShortRootRefused(t, key, proof);
    }
  }

  /** For the trie of a map with a root of at least 32 bytes: the map's value, or its absence,
      verifies. */
  lemma LongProofForMap(m: Entries, key: Nibbles)
    requires PrefixFree(m) && LeavesOnly(m) && m != map[] && Fits(TrieOf(m)) && |Encode(TrieOf(m))| >= 32
    ensures VerifyProof(RootHash(TrieOf(m)), key, Get(m, key), Encodings(Long(Chain(TrieOf(m), [], key)))) == Accepted
  {
    ProperTrie(m);
    hide Encode, TrieOf, Proper, Chain;
    LongProof(TrieOf(m), key);
    LookupIsGet(m, key);
  }
}
