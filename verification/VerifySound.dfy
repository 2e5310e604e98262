/** What an accepted proof proves about the trie behind a root hash. */
module VerifySound {
  import opened Primitives
  import opened Tries
  import opened Locations
  import opened NodeCodec
  import opened TrieNodes
  import opened Lookups
  import opened Verify
  import opened Walks
  import opened Readings

  /** b has the hash of no node of t but its own encoding. */
  ghost predicate NoClash(t: Trie, b: Bytes) {
    && (Keccak(b) == Keccak(Encode(t)) ==> b == Encode(t))
    && match t
       case Ext(_, c) => NoClash(c, b)
       case Branch(ch) => forall i | 0 <= i < |ch| :: NoClash(ch[i], b)
       case _ => true
  }

  /** No value that t holds is the bytes by which b would be referred to, unless reading b leads
      nowhere. */
  ghost predicate Unread(t: Trie, w: Nibbles, b: Bytes) {
    forall k, v | Holds(t, w, k, v) && v == FromRlp(b) :: !ReadsAsNode(b)
  }

  /** No node of the proof has the hash of a node of t without being it; nodes of fewer than 32 bytes
      are never compared by hash. */
  ghost predicate Clashless(t: Trie, proof: seq<Bytes>) {
    forall b | b in proof && |b| >= 32 :: NoClash(t, b)
  }

  /** Every node of the proof is compared with a reference: none comes after a value was reached,
      where the verifier would compare it with the value's bytes. */
  ghost predicate NodesFollow(last: Option<NodeDecodingResult>, w: Nibbles, key: Nibbles, proof: seq<Bytes>)
    decreases |proof|
  {
    proof != [] ==>
      && last.Some? && last.value.Node?
      && match WalkNode(last, w, key, proof[0])
         case Walking(l, w2) => NodesFollow(l, w2, key, proof[1..])
         case _ => true
  }

  /** No node of the proof of 32 bytes or more is taken in place of a value. */
  ghost predicate NoPreimage(last: Option<NodeDecodingResult>, w: Nibbles, key: Nibbles, proof: seq<Bytes>)
    decreases |proof|
  {
    proof != [] ==>
      && (last.Some? && last.value.Value? && last.value.Raw() == FromRlp(proof[0]) ==> |proof[0]| < 32)
      && match WalkNode(last, w, key, proof[0])
         case Walking(l, w2) => NoPreimage(l, w2, key, proof[1..])
         case _ => true
  }

  lemma {:induction false} StopNoClash(t: Trie, w: Nibbles, key: Nibbles, b: Bytes)
    requires Canonical(t) && NoClash(t, b)
    ensures StopOf(t, w, key).AtNode? ==> NoClash(StopOf(t, w, key).node, b)
    decreases t, 0
  {
    hide Encode, FromRlp;
    match t
    case Ext(p, c) =>
      if !Hashed(c) {
        StopNoClash(c, w + p, key, b);
      }
    case Branch(ch) =>
      if |w| < |key| && !Hashed(ch[key[|w|]]) {
        StopNoClash(ch[key[|w|]], w + [key[|w|]], key, b);
      }
    case _ =>
  }

  ghost predicate Proper(t: Trie) {
    Canonical(t) && Fits(t) && Whole(t) && !t.Empty?
  }

  /** A node that the walk accepts for a hash reference is the node referred to. */
  lemma AcceptedNode(word: Word, b: Bytes, t: Trie)
    requires word == Keccak(Encode(t)) && (|b| >= 32 ==> NoClash(t, b)) && FromRlp(b) == WordRlp(word)
    ensures b == Encode(t) && |Encode(t)| >= 32
  {
    assert |WordRlp(word)| == 33;
    assert WordRlp(Keccak(b))[1..] == Keccak(b) && WordRlp(word)[1..] == word;
  }

  /** A proof node compared with the reference of s is refused or is the node of s, whose
      processing ends where s says. */
  lemma StepSound(s: Trie, w: Nibbles, key: Nibbles, b: Bytes)
    requires Proper(s) && Hashed(s) && (|b| >= 32 ==> NoClash(s, b))
    requires !WalkNode(Some(Node(Reference(s))), w, key, b).Rejected?
    ensures WalkNode(Some(Node(Reference(s))), w, key, b) ==
            Walking(AsLast(StopOf(s, w, key)), StopOf(s, w, key).walked)
  {
    AcceptedNode(Keccak(Encode(s)), b, s);
    DecodeTrie(s);
    ProcessTrie(s, w, key);
  }

  /** A proof node compared with a value is refused, unless it opens. */
  lemma ValueStep(v: Bytes, w: Nibbles, key: Nibbles, b: Bytes)
    requires v == FromRlp(b) ==> !ReadsAsNode(b)
    ensures WalkNode(Some(Value(v)), w, key, b).Rejected?
  {
    hide FromRlp, DecodeNode;
    if v == FromRlp(b) && DecodeNode(b).Ok? {
      DecodeShrinks(b);
      ClosedFails(DecodeNode(b).value, w, key);
    }
  }

  /** The node a walk stopped at is the one that stands there. */
  ghost predicate Stands(s: Trie, w: Nibbles, end: Stop)
    requires end.AtNode?
  {
    w <= end.walked && !end.node.Empty? && NodeAt(s, end.walked[|w|..]) == end.node
  }

  lemma {:induction false} StopStands(t: Trie, w: Nibbles, key: Nibbles)
    requires Canonical(t) && Whole(t) && StopOf(t, w, key).AtNode?
    ensures Stands(t, w, StopOf(t, w, key)) && StopOf(t, w, key).walked != w
    decreases t
  {
    hide Encode;
    var end := StopOf(t, w, key);
    match t
    case Ext(p, c) =>
      if Hashed(c) {
        assert end.walked[|w + p|..] == [];
      } else {
        StopStands(c, w + p, key);
      }
      assert end.walked[|w|..] == p + end.walked[|w + p|..];
      NodeAtExt(t, end.walked[|w + p|..]);
    case Branch(ch) =>
      var x := key[|w|];
      if Hashed(ch[x]) {
        assert end.walked[|w + [x]|..] == [];
      } else {
        StopStands(ch[x], w + [x], key);
      }
      assert end.walked[|w|..] == [x] + end.walked[|w + [x]|..];
      NodeAtBranch(t, x, end.walked[|w + [x]|..]);
  }

  lemma StandsOn(s: Trie, w: Nibbles, s2: Trie, w2: Nibbles, end: Stop)
    requires Canonical(s) && Stands(s, w, AtNode(s2, w2)) && w2 <= end.walked
    requires end.AtNode? ==> Stands(s2, w2, end)
    ensures end.AtNode? ==> Stands(s, w, end)
  {
    if end.AtNode? {
      assert end.walked[|w|..] == w2[|w|..] + end.walked[|w2|..];
      NodeBelow(s, w2[|w|..], end.walked[|w2|..]);
    }
  }

  /** A walk that is not rejected ends somewhere consistent with looking the key up. */
  lemma {:induction false} WalkSound(s: Trie, w: Nibbles, key: Nibbles, proof: seq<Bytes>) returns (end: Stop)
    requires Proper(s) && Hashed(s) && Clashless(s, proof)
    requires NodesFollow(Some(Node(Reference(s))), w, key, proof)
    requires WalkProof(Some(Node(Reference(s))), w, key, proof).Walking?
    ensures WalkProof(Some(Node(Reference(s))), w, key, proof) == Walking(AsLast(end), end.walked)
    ensures Leads(s, w, key, end) && (end.AtNode? ==> Hashed(end.node) && Whole(end.node))
    ensures end.AtNode? ==> Stands(s, w, end) && (proof != [] ==> end.walked != w)
    decreases |proof|
  {
    if proof == [] {
      end := AtNode(s, w);
      assert w[|w|..] == [];
    } else {
      var b, rest := proof[0], proof[1..];
      assert b in proof;
      StepSound(s, w, key, b);
      StopLeads(s, w, key);
      end := StopOf(s, w, key);
      if end.AtNode? {
        StopInherits(s, w, key);
        StopStands(s, w, key);
        ClashlessRest(s, w, key, proof);
        var s2, w2 := end.node, end.walked;
        end := WalkSound(s2, w2, key, rest);
        LeadsOn(s, w, s2, w2, key, end);
        StandsOn(s, w, s2, w2, end);
      }
    }
  }

  lemma ClashlessRest(s: Trie, w: Nibbles, key: Nibbles, proof: seq<Bytes>)
    requires proof != [] && Canonical(s) && Clashless(s, proof) && StopOf(s, w, key).AtNode?
    ensures Clashless(StopOf(s, w, key).node, proof[1..])
  {
    forall c | c in proof[1..] && |c| >= 32
      ensures NoClash(StopOf(s, w, key).node, c)
    {
      assert c in proof;
      StopNoClash(s, w, key, c);
    }
  }

  /** How far a proof follows references: to its end, or to a node that is compared with a value
      the trie holds. */
  lemma {:induction false} WalkIntoValue(s: Trie, w: Nibbles, key: Nibbles, proof: seq<Bytes>)
    returns (n: nat, k: Nibbles, v: Bytes)
    requires Proper(s) && Hashed(s) && Clashless(s, proof)
    ensures n <= |proof|
    ensures var start := Some(Node(Reference(s))); var walk := WalkProof(start, w, key, proof);
            if n == |proof| then !walk.Crashed? && (walk.Walking? ==> NodesFollow(start, w, key, proof))
            else
              && Holds(s, w, k, v) && walk == WalkProof(Some(Value(v)), k, key, proof[n..])
              && (NoPreimage(start, w, key, proof) ==> NoPreimage(Some(Value(v)), k, key, proof[n..]))
    decreases |proof|
  {
    hide Encode, Reference, Holds, NoClash, StopOf, WalkNode;
    n, k, v := |proof|, [], [];
    if proof != [] && !WalkNode(Some(Node(Reference(s))), w, key, proof[0]).Rejected? {
      var rest := proof[1..];
      assert proof[0] in proof;
      StepSound(s, w, key, proof[0]);
      StopHolds(s, w, key);
      match StopOf(s, w, key)
      case AtNode(s2, w2) =>
        StopInherits(s, w, key);
        ClashlessRest(s, w, key, proof);
        hide Clashless, Proper;
        n, k, v := WalkIntoValue(s2, w2, key, rest);
        n := n + 1;
        assert n < |proof| ==> proof[n..] == rest[n - 1..];
      case AtValue(v2, w2) =>
        if rest != [] {
          n, k, v := 1, w2, v2;
        }
      case AtNothing(w2) =>
        if rest != [] {
          NothingStep(w2, key, rest[0]);
        }
    }
  }

  /** When no value is read as a node, every node of a walk that is not rejected is compared with a
      reference, and no walk crashes. */
  lemma ReferencesOnly(s: Trie, w: Nibbles, key: Nibbles, proof: seq<Bytes>)
    requires Proper(s) && Hashed(s) && Clashless(s, proof) && forall b | b in proof :: Unread(s, w, b)
    ensures var walk := WalkProof(Some(Node(Reference(s))), w, key, proof);
            !walk.Crashed? && (walk.Walking? ==> NodesFollow(Some(Node(Reference(s))), w, key, proof))
  {
    hide Encode, Reference, Proper, NodesFollow, NoPreimage, WalkNode, Holds, ReadsAsNode, FromRlp;
    var n, k, v := WalkIntoValue(s, w, key, proof);
    if n < |proof| {
      assert proof[n..][0] == proof[n] && proof[n] in proof;
      ValueStep(v, k, key, proof[n]);
    }
  }

  lemma NothingStep(w: Nibbles, key: Nibbles, b: Bytes)
    ensures WalkNode(None, w, key, b).Rejected?
  {
  }

  /** The two hypotheses under which a walk tells references from values: no node of the proof
      follows a value, or no value of the trie is the reference of a node of the proof. */
  ghost predicate ToldApart(t: Trie, key: Nibbles, proof: seq<Bytes>) {
    || NodesFollow(Some(Node(WordRlp(RootHash(t)))), [], key, proof)
    || forall b | b in proof :: Unread(t, [], b)
  }

  /** What acceptance means: the walk ended somewhere consistent with looking the key up, and what
      it found there is the expected value. */
  lemma AcceptedMeans(t: Trie, key: Nibbles, expected: Option<Bytes>, proof: seq<Bytes>) returns (end: Stop)
    requires Proper(t) && Clashless(t, proof) && NoClash(t, [EMPTY_STRING_CODE]) && ToldApart(t, key, proof)
    requires VerifyProof(RootHash(t), key, expected, proof) == Accepted
    ensures WalkProof(Some(Node(WordRlp(RootHash(t)))), [], key, proof) == Walking(AsLast(end), end.walked)
    ensures Leads(t, [], key, end) && (end.AtNode? ==> Hashed(end.node) && Whole(end.node))
    ensures end.AtNode? ==> Stands(t, [], end) && end.walked != []
    ensures expected == if end.walked == key then RawLast(AsLast(end)) else None
    ensures |Encode(t)| >= 32
  {
    NotEmptyRoot(t);
    AcceptedWalk(RootHash(t), key, expected, proof);
    assert proof[0] in proof;
    AcceptedNode(RootHash(t), proof[0], t);
    assert Reference(t) == WordRlp(RootHash(t));
    hide Encode, Reference, RootHash, WalkProof, NodesFollow, Proper, ToldApart, VerifyProof, FromRlp;
    ApartReferences(t, key, proof);
    end := WalkSound(t, [], key, proof);
  }

  lemma AcceptedWalk(root: Word, key: Nibbles, expected: Option<Bytes>, proof: seq<Bytes>)
    requires root != EMPTY_ROOT_HASH && VerifyProof(root, key, expected, proof) == Accepted
    ensures proof != [] && FromRlp(proof[0]) == WordRlp(root)
    ensures var walk := WalkProof(Some(Node(WordRlp(root))), [], key, proof);
            walk.Walking? && expected == if walk.walked == key then RawLast(walk.last) else None
  {
  }

  lemma ApartReferences(t: Trie, key: Nibbles, proof: seq<Bytes>)
    requires Proper(t) && Hashed(t) && Clashless(t, proof) && ToldApart(t, key, proof)
    requires Reference(t) == WordRlp(RootHash(t))
    requires WalkProof(Some(Node(WordRlp(RootHash(t)))), [], key, proof).Walking?
    ensures NodesFollow(Some(Node(WordRlp(RootHash(t)))), [], key, proof)
  {
    hide Encode, Reference, RootHash, NodesFollow, WalkProof, Unread, Proper;
    if forall b | b in proof :: Unread(t, [], b) {
      ReferencesOnly(t, [], key, proof);
    }
  }

  /** No proof gets past a root of fewer than 32 bytes. */
  lemma ShortRootRefused(t: Trie, key: Nibbles, proof: seq<Bytes>)
    requires Proper(t) && proof != [] && (|proof[0]| >= 32 ==> NoClash(t, proof[0])) && |Encode(t)| < 32
    ensures WalkProof(Some(Node(WordRlp(RootHash(t)))), [], key, proof).Rejected?
  {
    if FromRlp(proof[0]) == WordRlp(RootHash(t)) {
      AcceptedNode(RootHash(t), proof[0], t);
    }
  }

  lemma NotEmptyRoot(t: Trie)
    requires Proper(t) && NoClash(t, [EMPTY_STRING_CODE])
    ensures RootHash(t) != EMPTY_ROOT_HASH
  {
    ReferenceOk(t);
  }

  /** Inclusion: an accepted value is the key's value, unless the walk ended at a node standing
      exactly at the key and the value accepted is that node's hash reference. */
  lemma InclusionSound(t: Trie, key: Nibbles, v: Bytes, proof: seq<Bytes>) returns (end: Stop)
    requires Proper(t) && Clashless(t, proof) && NoClash(t, [EMPTY_STRING_CODE]) && ToldApart(t, key, proof)
    requires VerifyProof(RootHash(t), key, Some(v), proof) == Accepted
    ensures WalkProof(Some(Node(WordRlp(RootHash(t)))), [], key, proof) == Walking(AsLast(end), key)
    ensures end.AtValue? ==> Lookup(t, [], key) == Some(v)
    ensures !end.AtValue? ==>
              && end.AtNode? && key != [] && end.node == NodeAt(t, key)
              && |Encode(end.node)| >= 32 && v == Reference(end.node) && IsHashReference(v)
  {
    end := AcceptedMeans(t, key, Some(v), proof);
    if end.AtNode? {
      ReferenceOk33(end.node);
      assert key[0..] == key;
    }
  }

  lemma ReferenceOk33(c: Trie)
    requires Hashed(c) && Whole(c)
    ensures |Encode(c)| >= 32 && IsHashReference(Reference(c))
  {
  }

  /** No value of the map is the reference of a node of the proof, unless that node leads nowhere. */
  ghost predicate UnreadValues(m: Entries, proof: seq<Bytes>)
    requires LeavesOnly(m)
  {
    forall k, b | k in m && b in proof && m[k].bytes == FromRlp(b) :: !ReadsAsNode(b)
  }

  lemma UnreadTrie(m: Entries, proof: seq<Bytes>)
    requires PrefixFree(m) && LeavesOnly(m) && UnreadValues(m, proof)
    ensures forall b | b in proof :: Unread(TrieOf(m), [], b)
  {
    hide TrieOf, ReadsAsNode, FromRlp;
    forall b, k, v | b in proof && Holds(TrieOf(m), [], k, v) && v == FromRlp(b)
      ensures !ReadsAsNode(b)
    {
      LookupIsGet(m, k);
    }
  }

  /** Plain values are read in no proof. */
  lemma PlainUnreadValues(m: Entries, proof: seq<Bytes>)
    requires LeavesOnly(m) && PlainValues(m)
    ensures UnreadValues(m, proof)
  {
    hide ReadsAsNode, FromRlp, Plain;
    forall k, b | k in m && b in proof && m[k].bytes == FromRlp(b)
      ensures !ReadsAsNode(b)
    {
      PlainUnread(m[k].bytes, b);
    }
  }

  /** The walk ended at a value. */
  ghost predicate EndsInValue(root: Word, key: Nibbles, proof: seq<Bytes>) {
    var w := WalkProof(Some(Node(WordRlp(root))), [], key, proof);
    w.Walking? && w.last.Some? && w.last.value.Value?
  }

  // ----- The empty map -----

  /** The verdict on the empty trie's root: a proof that is empty, or starts with the empty node, shows
      that the key is absent and never a value; any other proof is refused at its first node. */
  lemma EmptyRootExactly(key: Nibbles, expected: Option<Bytes>, proof: seq<Bytes>)
    requires forall b | b in proof && |b| >= 32 :: Keccak(b) != Keccak([0x80])
    ensures var v := VerifyProof(RootHash(TrieOf(map[])), key, expected, proof);
            && (v == Accepted <==> expected == None && (proof == [] || proof[0] == [0x80]))
            && (v != Accepted ==>
                  v == Refused(if proof == [] || proof[0] == [0x80] then ValueMismatch(key, None, expected)
                               else ValueMismatch([], Some(proof[0]), Some([0xA0] + Keccak([0x80])))))
  {
    assert RootHash(TrieOf(map[])) == Keccak([0x80]) == EMPTY_ROOT_HASH;
    hide TrieOf, RootHash, DecodeNode;
    if proof != [] && proof[0] != [0x80] {
      assert proof[0] in proof;
      assert FromRlp(proof[0]) != WordRlp(EMPTY_ROOT_HASH) by {
        assert |proof[0]| >= 32 ==> FromRlp(proof[0])[1..] == Keccak(proof[0]);
        assert WordRlp(EMPTY_ROOT_HASH)[1..] == EMPTY_ROOT_HASH;
      }
    }
  }

  lemma ClashlessEmpty(m: Entries, proof: seq<Bytes>)
    requires m == map[] && Clashless(TrieOf(m), proof)
    ensures forall b | b in proof && |b| >= 32 :: Keccak(b) != Keccak([0x80])
  {
    assert TrieOf(m) == Empty;
    hide TrieOf;
    forall b | b in proof && |b| >= 32
      ensures Keccak(b) != Keccak([0x80])
    {
      assert NoClash(Empty, b) && Encode(Empty) == [0x80];
    }
  }

  // ----- Maps -----

  /** For a map none of whose values is the reference of a node of the proof: an accepted value is
      the map's, when it is not itself the reference by a hash or the walk ended at a value. */
  lemma InclusionForMap(m: Entries, key: Nibbles, v: Bytes, proof: seq<Bytes>)
    requires PrefixFree(m) && LeavesOnly(m) && Fits(TrieOf(m)) && UnreadValues(m, proof)
    requires Clashless(TrieOf(m), proof) && NoClash(TrieOf(m), [EMPTY_STRING_CODE])
    requires VerifyProof(RootHash(TrieOf(m)), key, Some(v), proof) == Accepted
    requires !IsHashReference(v) || EndsInValue(RootHash(TrieOf(m)), key, proof)
    ensures key in m && m[key] == Data(v)
  {
    hide VerifyProof, TrieOf, RootHash, NoClash, Fits, PrefixFree, UnreadValues, EndsInValue, IsHashReference;
    hide Clashless;
    if m == map[] {
      ClashlessEmpty(m, proof);
      EmptyRootExactly(key, Some(v), proof);
    } else {
      InclusionForSome(m, key, v, proof);
    }
  }

  lemma InclusionForSome(m: Entries, key: Nibbles, v: Bytes, proof: seq<Bytes>)
    requires PrefixFree(m) && LeavesOnly(m) && m != map[] && Fits(TrieOf(m)) && UnreadValues(m, proof)
    requires Clashless(TrieOf(m), proof) && NoClash(TrieOf(m), [EMPTY_STRING_CODE])
    requires VerifyProof(RootHash(TrieOf(m)), key, Some(v), proof) == Accepted
    requires !IsHashReference(v) || EndsInValue(RootHash(TrieOf(m)), key, proof)
    ensures key in m && m[key] == Data(v)
  {
    ProperTrie(m);
    UnreadTrie(m, proof);
    var end := InclusionSound(TrieOf(m), key, v, proof);
    LookupIsGet(m, key);
  }

  lemma ProperTrie(m: Entries)
    requires PrefixFree(m) && LeavesOnly(m) && m != map[] && Fits(TrieOf(m))
    ensures Proper(TrieOf(m))
  {
    TrieOfAt(m);
    AtCanonical(m, []);
    WholeAt(m, []);
    var k :| k in m;
    assert Inhabited(m, []);
  }

  /** The walk stopped at a reference above the key: the proof has simply run out. */
  ghost predicate Inconclusive(root: Word, key: Nibbles, proof: seq<Bytes>) {
    var w := WalkProof(Some(Node(WordRlp(root))), [], key, proof);
    w.Walking? && w.last.Some? && w.last.value.Node? && w.walked <= key
  }

  /** Exclusion: when the proof is conclusive, an accepted absence is an absence. */
  lemma ExclusionSound(t: Trie, key: Nibbles, proof: seq<Bytes>)
    requires Proper(t) && Clashless(t, proof) && NoClash(t, [EMPTY_STRING_CODE]) && ToldApart(t, key, proof)
    requires VerifyProof(RootHash(t), key, None, proof) == Accepted
    requires !Inconclusive(RootHash(t), key, proof)
    ensures Lookup(t, [], key) == None
  {
    var end := AcceptedMeans(t, key, None, proof);
  }

  lemma ExclusionForMap(m: Entries, key: Nibbles, proof: seq<Bytes>)
    requires PrefixFree(m) && LeavesOnly(m) && Fits(TrieOf(m)) && UnreadValues(m, proof)
    requires Clashless(TrieOf(m), proof) && NoClash(TrieOf(m), [EMPTY_STRING_CODE])
    requires VerifyProof(RootHash(TrieOf(m)), key, None, proof) == Accepted
    requires !Inconclusive(RootHash(TrieOf(m)), key, proof)
    ensures key !in m
  {
    if m != map[] {
      ProperTrie(m);
      UnreadTrie(m, proof);
      ExclusionSound(TrieOf(m), key, proof);
      LookupIsGet(m, key);
    }
  }
}
