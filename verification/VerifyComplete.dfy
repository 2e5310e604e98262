/** When the nodes on a key's path verify: the chain from the root to the key is accepted exactly
    when each of its nodes is long enough to be referred to by hash. */
module VerifyComplete {
  import opened Primitives
  import opened Rlp
  import opened HexPrefixes
  import opened Tries
  import opened Traversal
  import opened NodeCodec
  import opened TrieNodes
  import opened Lookups
  import opened Verify
  import opened Walks
  import opened VerifySound

  /** The nodes whose paths are prefixes of the key, root first. */
  ghost function Chain(t: Trie, w: Nibbles, key: Nibbles): (r: seq<Placed>)
    requires w <= key
    decreases t
  {
    match t
    case Leaf(_, _) => [Placed(w, t)]
    case Ext(p, c) => [Placed(w, t)] + if w + p <= key then Chain(c, w + p, key) else []
    case Branch(ch) =>
      [Placed(w, t)] +
      if |w| < |key| && key[|w|] < |ch| then Chain(ch[key[|w|]], w + [key[|w|]], key) else []
    case _ => []
  }

  ghost function Encodings(items: seq<Placed>): (r: seq<Bytes>)
    ensures |r| == |items| && forall i | 0 <= i < |r| :: r[i] == Encode(items[i].node)
  {
    seq(|items|, i requires 0 <= i < |items| => Encode(items[i].node))
  }

  lemma EncodingsStep(item: Placed, rest: seq<Placed>)
    ensures var r := Encodings([item] + rest); r[0] == Encode(item.node) && r[1..] == Encodings(rest)
  {
    hide Encode;
    var r := Encodings([item] + rest);
    forall i | 0 <= i < |rest|
      ensures r[1..][i] == Encodings(rest)[i]
    {
      assert r[1..][i] == r[i + 1] && ([item] + rest)[i + 1] == rest[i];
    }
  }

  /** Every node of the chain is referred to by hash. */
  ghost predicate AllHashed(items: seq<Placed>) {
    forall i | 0 <= i < |items| :: |Encode(items[i].node)| >= 32
  }

  lemma AllHashedStep(item: Placed, rest: seq<Placed>)
    ensures AllHashed([item] + rest) <==> |Encode(item.node)| >= 32 && AllHashed(rest)
  {
    hide Encode;
    var all := [item] + rest;
    if AllHashed(all) {
      assert |Encode(all[0].node)| >= 32;
      assert forall i | 0 <= i < |rest| :: rest[i] == all[i + 1];
    }
  }

  // ----- One step along the chain -----

  /** The trie's own encoding is accepted for its reference. */
  lemma OwnNode(t: Trie, w: Nibbles, key: Nibbles)
    requires Proper(t) && |Encode(t)| >= 32
    ensures WalkNode(Some(Node(Reference(t))), w, key, Encode(t)) ==
            Walking(AsLast(StopOf(t, w, key)), StopOf(t, w, key).walked)
  {
    DecodeTrie(t);
    ProcessTrie(t, w, key);
  }

  /** The child the chain goes on to, if any. */
  ghost function OnPath(t: Trie, w: Nibbles, key: Nibbles): (c: Option<(Trie, Nibbles)>)
    requires w <= key
  {
    match t
    case Ext(p, c) => if w + p <= key then Some((c, w + p)) else None
    case Branch(ch) =>
      if |w| < |key| && key[|w|] < |ch| && !ch[key[|w|]].Empty? then Some((ch[key[|w|]], w + [key[|w|]])) else None
    case _ => None
  }

  /** The chain, the lookup and the walk all go on to the same child. */
  lemma OnPathFacts(t: Trie, w: Nibbles, key: Nibbles)
    requires Proper(t) && w <= key
    ensures match OnPath(t, w, key)
            case Some((c, w2)) =>
              && w2 <= key && c < t && Proper(c)
              && Chain(t, w, key) == [Placed(w, t)] + Chain(c, w2, key)
              && StopOf(t, w, key) == StopAtChild(c, w2, key)
              && Lookup(t, w, key) == Lookup(c, w2, key)
            case None =>
              && Chain(t, w, key) == [Placed(w, t)]
              && (StopOf(t, w, key).walked == key ==> RawLast(AsLast(StopOf(t, w, key))) == Lookup(t, w, key))
              && (StopOf(t, w, key).walked != key ==> Lookup(t, w, key) == None)
  {
    hide Encode, Reference;
    match t
    case Ext(p, c) =>
      if !(w + p <= key) {
        StopLeadsChild(c, w + p, key);
        Diverged(w + p, StopAtChild(c, w + p, key).walked, key);
      }
    case _ =>
  }

  // ----- The whole chain -----

  lemma {:induction false} ChainAccepted(t: Trie, w: Nibbles, key: Nibbles)
    requires Proper(t) && w <= key && AllHashed(Chain(t, w, key))
    ensures var r := WalkProof(Some(Node(Reference(t))), w, key, Encodings(Chain(t, w, key)));
            r.Walking? && (if r.walked == key then RawLast(r.last) else None) == Lookup(t, w, key)
    decreases t
  {
    OnPathFacts(t, w, key);
    var next := OnPath(t, w, key);
    var rest := if next.Some? then Chain(next.value.0, next.value.1, key) else [];
    assert Chain(t, w, key) == [Placed(w, t)] + rest;
    hide Encode, Reference, Lookup, Chain, StopOf, Proper, OnPath, WalkNode;
    EncodingsStep(Placed(w, t), rest);
    AllHashedStep(Placed(w, t), rest);
    OwnNode(t, w, key);
    if next.Some? {
      var (c, w2) := next.value;
      ChainHead(c, w2, key);
      ChainAccepted(c, w2, key);
    }
  }

  /** A chain starts with the node itself, which is then hashed. */
  lemma ChainHead(c: Trie, w: Nibbles, key: Nibbles)
    requires Proper(c) && w <= key
    ensures Chain(c, w, key) != [] && Chain(c, w, key)[0] == Placed(w, c)
    ensures AllHashed(Chain(c, w, key)) ==> |Encode(c)| >= 32
    ensures |Encode(c)| >= 32 ==> StopAtChild(c, w, key) == AtNode(c, w)
  {
    hide Encode;
    assert AllHashed(Chain(c, w, key)) ==> |Encode(Chain(c, w, key)[0].node)| >= 32;
  }

  // ----- A short node breaks the chain -----

  /** A value reached in place is shorter than the node it was reached from. */
  lemma {:induction false} ValueShorter(t: Trie, w: Nibbles, key: Nibbles)
    requires Proper(t) && |Encode(t)| < 32 && StopOf(t, w, key).AtValue?
    ensures |StopOf(t, w, key).value| < |Encode(t)|
    decreases t
  {
    match t
    case Leaf(p, v) =>
      var a := EncodeString(HexPrefix(p, true));
      ConcatTwo(a, EncodeString(v));
      ListLonger([a, EncodeString(v)]);
      StringLonger(v);
    case Ext(p, c) =>
      ChildShorter(t, c);
      ValueShorter(c, w + p, key);
    case Branch(ch) =>
      ChildShorter(t, ch[key[|w|]]);
      ValueShorter(ch[key[|w|]], w + [key[|w|]], key);
  }

  lemma ChildShorter(t: Trie, c: Trie)
    requires Proper(t) && |Encode(t)| < 32 && !c.Empty?
    requires (t.Ext? && c == t.child) || (t.Branch? && c in t.children)
    ensures |Reference(c)| < |Encode(t)| && |Encode(c)| < |Encode(t)|
  {
    ReferenceOk(c);
    match t
    case Ext(p, _) =>
      var a := EncodeString(HexPrefix(p, false));
      ConcatTwo(a, Reference(c));
      ListLonger([a, Reference(c)]);
    case Branch(ch) =>
      var i :| 0 <= i < |ch| && ch[i] == c;
      var items := seq(|ch|, j requires 0 <= j < |ch| => Reference(ch[j])) + [[EMPTY_STRING_CODE]];
      assert items[i] == Reference(c);
      ConcatHolds(items, i);
      ListLonger(items);
  }

  /** A node encoded in place is not accepted after its parent: the walk is already past it. */
  lemma ShortRejected(c: Trie, w: Nibbles, w2: Nibbles, key: Nibbles)
    requires Proper(c) && |Encode(c)| < 32
    ensures WalkNode(AsLast(StopOf(c, w2, key)), w, key, Encode(c)).Rejected?
  {
    var s := StopOf(c, w2, key);
    match s
    case AtValue(v, _) => ValueShorter(c, w2, key);
    case AtNode(n, _) =>
      StopInherits(c, w2, key);
      ReferenceOk33(n);
    case AtNothing(_) =>
  }

  lemma {:induction false} ChainBroken(t: Trie, w: Nibbles, key: Nibbles)
    requires Proper(t) && |Encode(t)| >= 32 && w <= key && !AllHashed(Chain(t, w, key))
    ensures WalkProof(Some(Node(Reference(t))), w, key, Encodings(Chain(t, w, key))).Rejected?
    decreases t
  {
    OnPathFacts(t, w, key);
    var next := OnPath(t, w, key);
    var rest := if next.Some? then Chain(next.value.0, next.value.1, key) else [];
    assert Chain(t, w, key) == [Placed(w, t)] + rest;
    OwnNode(t, w, key);
    hide Encode, Reference, Lookup, Chain, StopOf, Proper, OnPath, WalkNode, WalkProof;
    EncodingsStep(Placed(w, t), rest);
    AllHashedStep(Placed(w, t), rest);
    WalkCons(Some(Node(Reference(t))), w, key, Encodings([Placed(w, t)] + rest));
    assert next.Some?;
    var (c, w2) := next.value;
    ChainHead(c, w2, key);
    if |Encode(c)| >= 32 {
      ChainBroken(c, w2, key);
    } else {
      InPlace(c, w2, key);
      ShortRejected(c, StopOf(c, w2, key).walked, w2, key);
      FirstRejected(AsLast(StopOf(t, w, key)), StopOf(t, w, key).walked, key, Encodings(rest));
    }
  }

  lemma InPlace(c: Trie, w: Nibbles, key: Nibbles)
    requires Proper(c) && |Encode(c)| < 32
    ensures StopAtChild(c, w, key) == StopOf(c, w, key)
  {
  }

  lemma FirstRejected(last: Option<NodeDecodingResult>, w: Nibbles, key: Nibbles, proof: seq<Bytes>)
    requires proof != [] && WalkNode(last, w, key, proof[0]).Rejected?
    ensures WalkProof(last, w, key, proof).Rejected?
  {
    hide WalkNode;
  }

  /** The chain of a key proves what the trie maps the key to - a value or its absence - exactly
      when every node of the chain has at least 32 bytes. */
  lemma CompleteExactly(t: Trie, key: Nibbles)
    requires Proper(t)
    ensures VerifyProof(RootHash(t), key, Lookup(t, [], key), Encodings(Chain(t, [], key))) == Accepted <==>
            AllHashed(Chain(t, [], key))
  {
    var chain := Chain(t, [], key);
    ChainHead(t, [], key);
    var proof := Encodings(chain);
    assert proof[0] == Encode(t);
    NotEmptyString(t);
    if |Encode(t)| < 32 {
      assert !AllHashed(chain);
      RootTooShort(t, key, proof);
    } else {
      assert Reference(t) == WordRlp(RootHash(t));
      if AllHashed(chain) {
        ChainAccepted(t, [], key);
      } else {
        ChainBroken(t, [], key);
      }
    }
  }

  lemma NotEmptyString(t: Trie)
    requires Proper(t)
    ensures Encode(t) != [EMPTY_STRING_CODE]
  {
    ReferenceOk(t);
  }

  lemma RootTooShort(t: Trie, key: Nibbles, proof: seq<Bytes>)
    requires Proper(t) && |Encode(t)| < 32 && proof != [] && proof[0] == Encode(t)
    ensures WalkProof(Some(Node(WordRlp(RootHash(t)))), [], key, proof).Rejected?
  {
  }

  // ----- A chain cut short -----

  lemma WalkCons(last: Option<NodeDecodingResult>, w: Nibbles, key: Nibbles, proof: seq<Bytes>)
    requires proof != [] && WalkNode(last, w, key, proof[0]).Walking?
    ensures var s := WalkNode(last, w, key, proof[0]);
            WalkProof(last, w, key, proof) == WalkProof(s.last, s.walked, key, proof[1..])
  {
    hide WalkNode;
  }

  /** Below a node encoded in place, every node is encoded in place. */
  lemma {:induction false} ShortBelow(t: Trie, w: Nibbles, key: Nibbles, n: nat)
    requires Proper(t) && w <= key && |Encode(t)| < 32 && n < |Chain(t, w, key)|
    ensures |Encode(Chain(t, w, key)[n].node)| < 32
    decreases t
  {
    hide Encode, Reference, Lookup, StopOf;
    OnPathFacts(t, w, key);
    if n > 0 {
      var (c, w2) := OnPath(t, w, key).value;
      ChildShorter(t, c);
      ShortBelow(c, w2, key, n - 1);
    }
  }

  /** Part of a chain leads to the first node left out, when that one is referred to by hash. */
  lemma {:induction false} ChainCut(t: Trie, w: Nibbles, key: Nibbles, n: nat)
    requires Proper(t) && w <= key && n < |Chain(t, w, key)| && |Encode(Chain(t, w, key)[n].node)| >= 32
    ensures var out := Chain(t, w, key)[n];
            WalkProof(Some(Node(Reference(t))), w, key, Encodings(Chain(t, w, key))[..n]) ==
            Walking(Some(Node(Reference(out.node))), out.path)
    decreases t
  {
    hide Encode, Reference, Chain, Proper, WalkProof;
    ChainHead(t, w, key);
    if n == 0 {
      assert Encodings(Chain(t, w, key))[..0] == [];
      WalkNone(Some(Node(Reference(t))), w, key);
    } else {
      var c, w2 := NextOnChain(t, w, key, n);
      ChainCut(c, w2, key, n - 1);
      CutStep(t, w, key, n, c, w2, Chain(c, w2, key));
    }
  }

  /** The nodes of a chain before one referred to by hash are compared with references. */
  lemma {:induction false} CutFollows(t: Trie, w: Nibbles, key: Nibbles, n: nat)
    requires Proper(t) && w <= key && n < |Chain(t, w, key)| && |Encode(Chain(t, w, key)[n].node)| >= 32
    ensures NodesFollow(Some(Node(Reference(t))), w, key, Encodings(Chain(t, w, key))[..n])
    decreases t
  {
    hide Encode, Reference, Chain, Proper, NodesFollow, StopOf, WalkNode;
    ChainHead(t, w, key);
    if n == 0 {
      assert Encodings(Chain(t, w, key))[..0] == [];
      FollowNone(Some(Node(Reference(t))), w, key);
    } else {
      var c, w2 := NextOnChain(t, w, key, n);
      CutFollows(c, w2, key, n - 1);
      var rest := Chain(c, w2, key);
      EncodingsStep(Placed(w, t), rest);
      OwnNode(t, w, key);
      var proof := Encodings(Chain(t, w, key))[..n];
      assert proof[0] == Encode(t) && proof[1..] == Encodings(rest)[..n - 1];
      FollowCons(Reference(t), w, key, proof);
    }
  }

  lemma FollowNone(last: Option<NodeDecodingResult>, w: Nibbles, key: Nibbles)
    ensures NodesFollow(last, w, key, [])
  {
  }

  lemma FollowCons(r: Bytes, w: Nibbles, key: Nibbles, proof: seq<Bytes>)
    requires proof != []
    requires var s := WalkNode(Some(Node(r)), w, key, proof[0]);
             s.Walking? ==> NodesFollow(s.last, s.walked, key, proof[1..])
    ensures NodesFollow(Some(Node(r)), w, key, proof)
  {
    hide WalkNode;
  }

  /** The second node of a chain that goes on to a node referred to by hash. */
  lemma NextOnChain(t: Trie, w: Nibbles, key: Nibbles, n: nat) returns (c: Trie, w2: Nibbles)
    requires Proper(t) && w <= key && 0 < n < |Chain(t, w, key)| && |Encode(Chain(t, w, key)[n].node)| >= 32
    ensures c < t && Proper(c) && w2 <= key && |Encode(t)| >= 32 && StopOf(t, w, key) == AtNode(c, w2)
    ensures Chain(t, w, key) == [Placed(w, t)] + Chain(c, w2, key)
  {
    hide Encode, Chain, Proper, OnPath, StopOf, Lookup, AllHashed;
    OnPathFacts(t, w, key);
    var next := OnPath(t, w, key);
    c, w2 := next.value.0, next.value.1;
    assert Chain(t, w, key)[n] == Chain(c, w2, key)[n - 1];
    LongAbove(t, w, key, n);
    LongAbove(c, w2, key, n - 1);
    ChainHead(c, w2, key);
  }

  lemma LongAbove(t: Trie, w: Nibbles, key: Nibbles, n: nat)
    requires Proper(t) && w <= key && n < |Chain(t, w, key)| && |Encode(Chain(t, w, key)[n].node)| >= 32
    ensures |Encode(t)| >= 32
  {
    if |Encode(t)| < 32 {
      ShortBelow(t, w, key, n);
    }
  }

  lemma WalkNone(last: Option<NodeDecodingResult>, w: Nibbles, key: Nibbles)
    ensures WalkProof(last, w, key, []) == Walking(last, w)
  {
  }

  lemma CutStep(t: Trie, w: Nibbles, key: Nibbles, n: nat, c: Trie, w2: Nibbles, rest: seq<Placed>)
    requires Proper(t) && |Encode(t)| >= 32 && StopOf(t, w, key) == AtNode(c, w2) && 0 < n <= |rest|
    ensures WalkProof(Some(Node(Reference(t))), w, key, Encodings([Placed(w, t)] + rest)[..n]) ==
            WalkProof(Some(Node(Reference(c))), w2, key, Encodings(rest)[..n - 1])
  {
    hide Encode, Reference, Proper, StopOf, WalkProof, WalkNode;
    var proof := Encodings([Placed(w, t)] + rest);
    EncodingsStep(Placed(w, t), rest);
    OwnNode(t, w, key);
    assert proof[..n][0] == Encode(t) && proof[..n][1..] == Encodings(rest)[..n - 1];
    WalkCons(Some(Node(Reference(t))), w, key, proof[..n]);
  }

  /** A chain cut short before a node referred to by hash is accepted as a proof of absence,
      whatever the trie maps the key to, exactly when that node stands above the key; when it
      stands at the key, the chain is accepted for the node's reference as the key's value. */
  lemma CutAccepted(t: Trie, key: Nibbles, n: nat)
    requires Proper(t) && 0 < n < |Chain(t, [], key)| && |Encode(Chain(t, [], key)[n].node)| >= 32
    ensures var proof, out := Encodings(Chain(t, [], key))[..n], Chain(t, [], key)[n];
            && (VerifyProof(RootHash(t), key, None, proof) == Accepted <==> out.path != key)
            && (VerifyProof(RootHash(t), key, Some(Reference(out.node)), proof) == Accepted <==> out.path == key)
  {
    var proof := Encodings(Chain(t, [], key))[..n];
    ChainHead(t, [], key);
    LongAbove(t, [], key, n);
    NotEmptyString(t);
    assert proof[0] == Encode(t);
    assert Reference(t) == WordRlp(RootHash(t));
    ChainCut(t, [], key, n);
  }
}
