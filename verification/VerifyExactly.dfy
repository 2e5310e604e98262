/** Exactly what the verifier accepts for the root of a trie, over all proofs, and exactly when what
    it accepts is right. */
module VerifyExactly {
  import opened Primitives
  import opened Tries
  import opened Traversal
  import opened Locations
  import opened NodeCodec
  import opened Lookups
  import opened Verify
  import Walks
  import opened Readings
  import opened VerifySound
  import opened VerifyComplete
  import opened VerifyInPlace
  import opened ProofNodes
  import opened RootInjective

  /** Some proof is accepted that has no hash collision with the trie and tells references from
      values. */
  ghost predicate Acceptable(t: Trie, key: Nibbles, expected: Option<Bytes>) {
    exists proof: seq<Bytes> ::
      Clashless(t, proof) && ToldApart(t, key, proof) && VerifyProof(RootHash(t), key, expected, proof) == Accepted
  }

  /** The hypotheses on the hash: the trie's nodes have distinct hashes, none of them the empty
      trie's. */
  ghost predicate Clean(t: Trie) {
    Proper(t) && Distinct(t, t) && NoClash(t, [EMPTY_STRING_CODE])
  }

  /** A node referred to by hash stands at p, below the root. */
  ghost predicate LongAt(t: Trie, p: Nibbles) {
    p != [] && !NodeAt(t, p).Empty? && |Encode(NodeAt(t, p))| >= 32
  }

  // ----- Own nodes do not clash -----

  lemma {:induction false} ChainDistinct(a: Trie, t: Trie, w: Nibbles, key: Nibbles)
    requires Proper(a) && w <= key && Distinct(a, t)
    ensures forall i | 0 <= i < |Chain(a, w, key)| :: NoClash(t, Encode(Chain(a, w, key)[i].node))
    decreases a
  {
    OnPathFacts(a, w, key);
    var next := OnPath(a, w, key);
    assert NoClash(t, Encode(a));
    if next.Some? {
      var (c, w2) := next.value;
      assert Distinct(c, t);
      hide Encode, NoClash, Distinct, Chain, OnPath, Proper;
      ChainDistinct(c, t, w2, key);
    }
  }

  lemma {:induction false} LongIn(items: seq<Placed>)
    ensures forall p | p in Long(items) :: p in items
  {
    hide Encode;
    if items != [] {
      LongIn(items[1..]);
    }
  }

  lemma LongClashless(t: Trie, key: Nibbles)
    requires Proper(t) && Distinct(t, t)
    ensures Clashless(t, Encodings(Long(Chain(t, [], key))))
    ensures Clashless(t, Encodings(Chain(t, [], key)))
  {
    hide Encode, NoClash, Distinct, Chain, Proper, Long;
    var chain := Chain(t, [], key);
    ChainDistinct(t, t, [], key);
    LongIn(chain);
    var proof := Encodings(Long(chain));
    forall b | b in proof
      ensures NoClash(t, b)
    {
      var i :| 0 <= i < |proof| && proof[i] == b;
      assert Long(chain)[i] in chain;
    }
  }

  // ----- Everything the verifier accepts -----

  lemma LookupAcceptable(t: Trie, key: Nibbles)
    requires Clean(t) && |Encode(t)| >= 32
    ensures Acceptable(t, key, Lookup(t, [], key))
  {
    RootReference(t);
    hide Encode, Distinct, NoClash, Clashless, Lookup, Chain, VerifyProof, Proper, NodesFollow, Unread, RootHash;
    hide Reference;
    LongProof(t, key);
    LongClashless(t, key);
    LongFollows(t, [], key);
  }

  lemma RootReference(t: Trie)
    requires Proper(t) && |Encode(t)| >= 32
    ensures Reference(t) == WordRlp(RootHash(t))
  {
  }

  /** A long node at a prefix of the key stands on the key's chain, after the root. */
  lemma OnChain(t: Trie, key: Nibbles, p: Nibbles) returns (n: nat)
    requires Proper(t) && p <= key && LongAt(t, p)
    ensures 0 < n < |Chain(t, [], key)| && Chain(t, [], key)[n] == Placed(p, NodeAt(t, p))
  {
    hide Encode, Proper, NodeAt, Chain;
    ChainStands(t, [], key, p);
    assert p[0..] == p;
    ChainHead(t, [], key);
    n :| 0 <= n < |Chain(t, [], key)| && Chain(t, [], key)[n] == Placed(p, NodeAt(t, p));
  }

  lemma CutAcceptable(t: Trie, key: Nibbles, p: Nibbles)
    requires Clean(t) && p <= key && LongAt(t, p)
    ensures Acceptable(t, key, if p == key then Some(Reference(NodeAt(t, p))) else None)
    ensures |Encode(t)| >= 32
  {
    hide Encode, Distinct, NoClash, Reference, RootHash, NodeAt, Chain, VerifyProof, Proper, NodesFollow, Unread;
    var n := OnChain(t, key, p);
    LongAbove(t, [], key, n);
    RootReference(t);
    CutAccepted(t, key, n);
    CutFollows(t, [], key, n);
    LongClashless(t, key);
    var proof := Encodings(Chain(t, [], key));
    assert Clashless(t, proof[..n]);
  }

  /** The values that can be accepted for a key are the one the trie maps it to and the reference of
      a long node standing at it; with a short root there are none. */
  lemma AcceptedValuesExactly(t: Trie, key: Nibbles, v: Bytes)
    requires Clean(t)
    ensures Acceptable(t, key, Some(v)) <==>
            && |Encode(t)| >= 32
            && (Lookup(t, [], key) == Some(v) || (LongAt(t, key) && v == Reference(NodeAt(t, key))))
  {
    hide Encode, Distinct, NoClash, Clashless, ToldApart, Reference, RootHash, NodeAt, Lookup, VerifyProof, Proper;
    if Acceptable(t, key, Some(v)) {
      var proof :| Clashless(t, proof) && ToldApart(t, key, proof) &&
                   VerifyProof(RootHash(t), key, Some(v), proof) == Accepted;
      var end := InclusionSound(t, key, v, proof);
      end := AcceptedMeans(t, key, Some(v), proof);
    }
    if |Encode(t)| >= 32 && Lookup(t, [], key) == Some(v) {
      LookupAcceptable(t, key);
    }
    if LongAt(t, key) && v == Reference(NodeAt(t, key)) {
      CutAcceptable(t, key, key);
    }
  }

  /** A key can be accepted as absent exactly when it is, or when a long node stands strictly between
      the root and it, before which the proof may stop. */
  lemma AcceptedAbsenceExactly(t: Trie, key: Nibbles)
    requires Clean(t)
    ensures Acceptable(t, key, None) <==>
            && |Encode(t)| >= 32
            && (Lookup(t, [], key) == None || exists p | p <= key && p != key :: LongAt(t, p))
  {
    hide Encode, Distinct, NoClash, Clashless, ToldApart, Reference, RootHash, NodeAt, Lookup, VerifyProof, Proper;
    if Acceptable(t, key, None) {
      var proof :| Clashless(t, proof) && ToldApart(t, key, proof) &&
                   VerifyProof(RootHash(t), key, None, proof) == Accepted;
      StoppedAbove(t, key, proof);
    }
    if |Encode(t)| >= 32 && Lookup(t, [], key) == None {
      LookupAcceptable(t, key);
    }
    if p :| p <= key && p != key && LongAt(t, p) {
      CutAcceptable(t, key, p);
    }
  }

  lemma StoppedAbove(t: Trie, key: Nibbles, proof: seq<Bytes>)
    requires Clean(t) && Clashless(t, proof) && ToldApart(t, key, proof)
    requires VerifyProof(RootHash(t), key, None, proof) == Accepted
    ensures |Encode(t)| >= 32
    ensures Lookup(t, [], key) == None || exists p | p <= key && p != key :: LongAt(t, p)
  {
    hide Encode, Distinct, NoClash, Clashless, ToldApart, Reference, RootHash, NodeAt, Lookup, VerifyProof, Proper;
    var end := AcceptedMeans(t, key, None, proof);
    if end.AtNode? && end.walked <= key {
      LongWhole(end.node);
      assert end.walked[0..] == end.walked;
      assert LongAt(t, end.walked);
    }
  }

  lemma LongWhole(n: Trie)
    requires Walks.Hashed(n) && Whole(n)
    ensures |Encode(n)| >= 32
  {
  }

  /** For a map of plain values every accepted proof tells references from values. */
  lemma PlainAcceptable(m: Entries, key: Nibbles, expected: Option<Bytes>, proof: seq<Bytes>)
    requires PrefixFree(m) && LeavesOnly(m) && PlainValues(m) && Clashless(TrieOf(m), proof)
    requires VerifyProof(RootHash(TrieOf(m)), key, expected, proof) == Accepted
    ensures Acceptable(TrieOf(m), key, expected)
  {
    hide TrieOf, RootHash, VerifyProof, Clashless, Unread, PlainValues, UnreadValues, NodesFollow;
    PlainUnreadValues(m, proof);
    UnreadTrie(m, proof);
  }

  // ----- When everything accepted is right -----

  /** Whatever a conclusive proof is accepted for, the trie says too; proofs that take a node of 32
      bytes or more in place of a value, whose hash they thereby invert, are left aside. */
  ghost predicate Right(t: Trie) {
    forall key: Nibbles, expected: Option<Bytes>, proof: seq<Bytes> |
      AcceptedConclusively(t, key, expected, proof) :: expected == Lookup(t, [], key)
  }

  ghost predicate AcceptedConclusively(t: Trie, key: Nibbles, expected: Option<Bytes>, proof: seq<Bytes>) {
    && Clashless(t, proof) && NoPreimage(Some(Node(WordRlp(RootHash(t)))), [], key, proof)
    && !Inconclusive(RootHash(t), key, proof)
    && VerifyProof(RootHash(t), key, expected, proof) == Accepted
  }

  /** No value of fewer than 32 bytes reads as a node. */
  ghost predicate ShortUnread(t: Trie) {
    forall k, v | Holds(t, [], k, v) && |v| < 32 :: !ReadsAsNode(v)
  }

  lemma UnreadIsRight(t: Trie, key: Nibbles, expected: Option<Bytes>, proof: seq<Bytes>)
    requires Clean(t) && ShortUnread(t) && AcceptedConclusively(t, key, expected, proof)
    ensures expected == Lookup(t, [], key)
  {
    hide Encode, Distinct, NoClash, Reference, RootHash, NodeAt, Lookup, VerifyProof, Proper, WalkProof, NodesFollow;
    hide NoPreimage, Clashless, Holds, ReadsAsNode;
    AcceptedFollows(t, key, expected, proof);
    var end := AcceptedMeans(t, key, expected, proof);
  }

  lemma AcceptedFollows(t: Trie, key: Nibbles, expected: Option<Bytes>, proof: seq<Bytes>)
    requires Clean(t) && ShortUnread(t) && AcceptedConclusively(t, key, expected, proof)
    ensures NodesFollow(Some(Node(WordRlp(RootHash(t)))), [], key, proof)
  {
    NotEmptyRoot(t);
    AcceptedWalk(RootHash(t), key, expected, proof);
    assert proof[0] in proof;
    AcceptedNode(RootHash(t), proof[0], t);
    RootReference(t);
    hide Encode, Distinct, NoClash, Reference, RootHash, Lookup, VerifyProof, Proper, NodesFollow, Clashless;
    hide WalkProof, NoPreimage, Holds, ReadsAsNode, FromRlp;
    var n, k, v := WalkIntoValue(t, [], key, proof);
    if n < |proof| {
      ValueRefused(v, k, key, proof[n..]);
    }
  }

  lemma ValueRefused(v: Bytes, w: Nibbles, key: Nibbles, proof: seq<Bytes>)
    requires proof != [] && NoPreimage(Some(Value(v)), w, key, proof) && (|v| < 32 ==> !ReadsAsNode(v))
    ensures WalkProof(Some(Value(v)), w, key, proof).Rejected?
  {
    hide ReadsAsNode, WalkNode;
    ValueStep(v, w, key, proof[0]);
  }

  lemma {:induction false} WalkConcat(last: Option<NodeDecodingResult>, w: Nibbles, key: Nibbles,
                                      proof: seq<Bytes>, rest: seq<Bytes>)
    requires WalkProof(last, w, key, proof).Walking? && NodesFollow(last, w, key, proof)
    ensures var walk := WalkProof(last, w, key, proof);
            && WalkProof(last, w, key, proof + rest) == WalkProof(walk.last, walk.walked, key, rest)
            && (NoPreimage(walk.last, walk.walked, key, rest) ==> NoPreimage(last, w, key, proof + rest))
    decreases |proof|
  {
    hide WalkNode;
    if proof == [] {
      assert [] + rest == rest;
    } else {
      var s := WalkNode(last, w, key, proof[0]);
      assert (proof + rest)[1..] == proof[1..] + rest;
      WalkConcat(s.last, s.walked, key, proof[1..], rest);
    }
  }

  lemma {:induction false} ShortNoPreimage(last: Option<NodeDecodingResult>, w: Nibbles, key: Nibbles,
                                           proof: seq<Bytes>)
    requires forall b | b in proof :: |b| < 32
    ensures NoPreimage(last, w, key, proof)
    decreases |proof|
  {
    hide WalkNode, FromRlp;
    if proof != [] {
      assert proof[0] in proof;
      var s := WalkNode(last, w, key, proof[0]);
      if s.Walking? {
        ShortNoPreimage(s.last, s.walked, key, proof[1..]);
      }
    }
  }

  /** A proof that goes on, with short nodes, from a value the trie holds. */
  lemma BeyondValue(t: Trie, k: Nibbles, v: Bytes, key: Nibbles, rest: seq<Bytes>) returns (proof: seq<Bytes>)
    requires Clean(t) && |Encode(t)| >= 32 && Holds(t, [], k, v) && k <= key
    requires forall b | b in rest :: |b| < 32
    ensures Clashless(t, proof) && proof != [] && proof[0] != [EMPTY_STRING_CODE]
    ensures var start := Some(Node(WordRlp(RootHash(t))));
            && NoPreimage(start, [], key, proof)
            && WalkProof(start, [], key, proof) == WalkProof(Some(Value(v)), k, key, rest)
  {
    RootReference(t);
    hide Encode, Distinct, NoClash, Reference, RootHash, Lookup, Proper, Chain, Long, WalkProof, NodesFollow;
    hide NoPreimage;
    var chain := Encodings(Long(Chain(t, [], k)));
    proof := chain + rest;
    LongClashless(t, k);
    NotEmptyString(t);
    LongReaches(t, [], k, v, key);
    ShortNoPreimage(Some(Value(v)), k, key, rest);
    WalkConcat(Some(Node(WordRlp(RootHash(t)))), [], key, chain, rest);
  }

  /** A short value that reads as a node misleads: followed by itself, it is accepted for something
      other than itself at its own key, by a conclusive proof. */
  lemma MisreadValue(t: Trie, key: Nibbles, v: Bytes) returns (expected: Option<Bytes>, proof: seq<Bytes>)
    requires Clean(t) && |Encode(t)| >= 32 && Lookup(t, [], key) == Some(v)
    requires |v| < 32 && ReadsAsNode(v)
    ensures AcceptedConclusively(t, key, expected, proof) && expected != Some(v)
  {
    hide Encode, Distinct, NoClash, RootHash, Lookup, DecodeNode, WalkNode, NoPreimage, Clashless, Clean;
    proof := BeyondValue(t, key, v, key, [v]);
    expected := ValueRead(Some(Value(v)), key, v);
    OneStep(Some(Value(v)), key, key, v);
  }

  lemma OneStep(last: Option<NodeDecodingResult>, w: Nibbles, key: Nibbles, b: Bytes)
    ensures WalkProof(last, w, key, [b]) == WalkNode(last, w, key, b)
  {
    hide WalkNode;
    assert [b][1..] == [];
  }

  lemma ValueRead(last: Option<NodeDecodingResult>, key: Nibbles, v: Bytes) returns (expected: Option<Bytes>)
    requires RawLast(last) == Some(v) && |v| < 32 && ReadsAsNode(v)
    ensures var walk := WalkNode(last, key, key, v);
            && walk.Walking? && !(walk.last.Some? && walk.last.value.Node?)
            && expected == (if walk.walked == key then RawLast(walk.last) else None) && expected != Some(v)
  {
    hide DecodeNode;
    ResultSize(v, key, key);
    OpenReaches(DecodeNode(v).value, key, key);
    var walk := WalkNode(last, key, key, v);
    expected := if walk.walked == key then RawLast(walk.last) else None;
  }

  // ----- Maps without values of the form of a hash reference -----

  lemma {:induction false} ValueNoPreimage(x: Bytes, w: Nibbles, key: Nibbles, proof: seq<Bytes>)
    requires !IsHashReference(x)
    ensures NoPreimage(Some(Value(x)), w, key, proof)
    decreases |proof|
  {
    hide DecodeNode, ProcessNode;
    if proof != [] {
      var b, rest := proof[0], proof[1..];
      var s := WalkNode(Some(Value(x)), w, key, b);
      if s.Walking? {
        ResultSize(b, w, key);
        if s.last.Some? {
          ValueNoPreimage(s.last.value.Raw(), s.walked, key, rest);
        } else {
          NothingNoPreimage(s.walked, key, rest);
        }
      }
    }
  }

  lemma NothingNoPreimage(w: Nibbles, key: Nibbles, proof: seq<Bytes>)
    ensures NoPreimage(None, w, key, proof)
  {
  }

  /** Without such values no proof can take a long node in place of a value. */
  lemma {:induction false} HashFormFree(s: Trie, w: Nibbles, key: Nibbles, proof: seq<Bytes>)
    requires Proper(s) && Walks.Hashed(s) && Clashless(s, proof)
    requires forall k, v | Holds(s, w, k, v) :: !IsHashReference(v)
    ensures NoPreimage(Some(Node(Reference(s))), w, key, proof)
    decreases |proof|
  {
    if proof != [] && WalkNode(Some(Node(Reference(s))), w, key, proof[0]).Walking? {
      var rest := proof[1..];
      assert proof[0] in proof;
      StepSound(s, w, key, proof[0]);
      Walks.StopHolds(s, w, key);
      var end := Walks.StopOf(s, w, key);
      hide Walks.StopOf, WalkNode, Holds, Encode, Reference, IsHashReference;
      match end
      case AtNode(s2, w2) =>
        Walks.StopInherits(s, w, key);
        ClashlessRest(s, w, key, proof);
        HashFormFree(s2, w2, key, rest);
      case AtValue(v2, w2) => ValueNoPreimage(v2, w2, key, rest);
      case AtNothing(w2) => NothingNoPreimage(w2, key, rest);
    }
  }

  lemma HashFormFreeForMap(m: Entries, key: Nibbles, proof: seq<Bytes>)
    requires PrefixFree(m) && LeavesOnly(m) && Proper(TrieOf(m)) && |Encode(TrieOf(m))| >= 32
    requires Clashless(TrieOf(m), proof) && forall k | k in m :: !IsHashReference(m[k].bytes)
    ensures NoPreimage(Some(Node(WordRlp(RootHash(TrieOf(m))))), [], key, proof)
  {
    var t := TrieOf(m);
    RootReference(t);
    hide TrieOf, RootHash, Reference, Lookup, Proper, NoPreimage, IsHashReference;
    forall k, v | Holds(t, [], k, v)
      ensures !IsHashReference(v)
    {
      LookupIsGet(m, k);
    }
    HashFormFree(t, [], key, proof);
  }

  // ----- The exact condition -----

  /** Everything that conclusive proofs are accepted for is right exactly when no value of fewer than
      32 bytes reads as a node. */
  lemma RightExactly(m: Entries)
    requires PrefixFree(m) && LeavesOnly(m) && Clean(TrieOf(m)) && |Encode(TrieOf(m))| >= 32
    ensures Right(TrieOf(m)) <==> forall k | k in m && |m[k].bytes| < 32 :: !ReadsAsNode(m[k].bytes)
  {
    hide Encode, NoClash, TrieOf, Lookup, Clean, ReadsAsNode, AcceptedConclusively;
    var t := TrieOf(m);
    if k :| k in m && |m[k].bytes| < 32 && ReadsAsNode(m[k].bytes) {
      LookupIsGet(m, k);
      var expected, proof := MisreadValue(t, k, m[k].bytes);
    } else {
      forall k, v | Holds(t, [], k, v) && |v| < 32
        ensures !ReadsAsNode(v)
      {
        LookupIsGet(m, k);
      }
      forall key: Nibbles, expected: Option<Bytes>, proof: seq<Bytes> | AcceptedConclusively(t, key, expected, proof)
        ensures expected == Lookup(t, [], key)
      {
        UnreadIsRight(t, key, expected, proof);
      }
    }
  }
}
