/** When the verifier reaches its `unreachable!` arm: exactly when some value of the trie, read as a
    node, leads there. */
module Panics {
  import opened Primitives
  import opened Masks
  import opened Tries
  import opened NodeCodec
  import opened TrieNodes
  import opened Lookups
  import opened Verify
  import opened Readings
  import opened VerifySound
  import opened VerifyExactly

  // ----- Bytes that trip the verifier -----

  /** Processing b as a node can reach the arm with at most n more nibbles of a key: it holds, at the
      end of extensions or inside a branch, an in-place extension to something that decodes but is
      no branch, or it leads to a leaf whose value can be gone on from in the same way. */
  predicate TripsIn(b: Bytes, n: nat)
    decreases |b|, 0
  {
    DecodeNode(b).Ok? && (
      DecodeShrinks(b);
      match DecodeNode(b).value
      case EmptyRoot => false
      case LeafNode(p, x) => LeafValueShorter(b); |p| <= n && |x| < 32 && TripsIn(x, n - |p|)
      case ExtensionNode(p, child) => |p| <= n && |child| != 33 && TripsIn(child, n - |p|)
      case BranchNode(stack, _) => n > 0 && exists i | 0 <= i < |stack| :: ChildTripsIn(stack[i], n - 1)
    )
  }

  predicate ChildTripsIn(c: Bytes, n: nat)
    decreases |c|, 1
  {
    |c| != 33 && DecodeNode(c).Ok? && (
      DecodeShrinks(c);
      match DecodeNode(c).value
      case EmptyRoot => false
      case LeafNode(p, x) => LeafValueShorter(c); |p| <= n && |x| < 32 && TripsIn(x, n - |p|)
      case BranchNode(_, _) => TripsIn(c, n)
      case ExtensionNode(p, below) =>
        DecodeNode(below).Ok? &&
        (DecodeNode(below).value.BranchNode? ==> |p| <= n && TripsIn(below, n - |p|))
    )
  }

  /** With no nibble left nothing trips. */
  lemma {:induction false} NoBudget(b: Bytes)
    ensures !TripsIn(b, 0)
    decreases |b|
  {
    hide DecodeNode;
    if DecodeNode(b).Ok? {
      DecodeShrinks(b);
      match DecodeNode(b).value
      case LeafNode(_, x) =>
        LeafValueShorter(b);
        NoBudget(x);
      case ExtensionNode(_, child) => NoBudget(child);
      case _ =>
    }
  }

  /** More nibbles do no harm. */
  lemma {:induction false} MoreBudget(b: Bytes, n: nat, n': nat)
    requires TripsIn(b, n) && n <= n'
    ensures TripsIn(b, n')
    decreases |b|, 0
  {
    hide DecodeNode;
    DecodeShrinks(b);
    match DecodeNode(b).value
    case LeafNode(p, x) =>
      LeafValueShorter(b);
      MoreBudget(x, n - |p|, n' - |p|);
    case ExtensionNode(p, child) => MoreBudget(child, n - |p|, n' - |p|);
    case BranchNode(stack, _) =>
      var i :| 0 <= i < |stack| && ChildTripsIn(stack[i], n - 1);
      MoreChildBudget(stack[i], n - 1, n' - 1);
  }

  lemma {:induction false} MoreChildBudget(c: Bytes, n: nat, n': nat)
    requires ChildTripsIn(c, n) && n <= n'
    ensures ChildTripsIn(c, n')
    decreases |c|, 1
  {
    hide DecodeNode;
    DecodeShrinks(c);
    match DecodeNode(c).value
    case LeafNode(p, x) =>
      LeafValueShorter(c);
      MoreBudget(x, n - |p|, n' - |p|);
    case BranchNode(_, _) => MoreBudget(c, n, n');
    case ExtensionNode(p, below) =>
      if DecodeNode(below).value.BranchNode? {
        MoreBudget(below, n - |p|, n' - |p|);
      }
  }

  // ----- Tripping -----

  /** The walk crashes here, or later along the proof. */
  ghost predicate Doomed(r: Processed, key: Nibbles, proof: seq<Bytes>) {
    r.Panicked? || (r.Reached? && WalkProof(r.last, r.walked, key, proof).Crashed?)
  }

  /** Going on from a short value into itself. */
  lemma ValueDoomed(x: Bytes, w: Nibbles, key: Nibbles, proof: seq<Bytes>)
    requires |x| < 32 && DecodeNode(x).Ok? && Counted(DecodeNode(x).value)
    requires Doomed(ProcessNode(DecodeNode(x).value, w, key), key, proof)
    ensures WalkProof(Some(Value(x)), w, key, [x] + proof).Crashed?
  {
    hide DecodeNode, ProcessNode;
    assert ([x] + proof)[1..] == proof;
  }

  lemma KeyBeyond(w: Nibbles, p: Nibbles, s: Nibbles, key: Nibbles)
    requires |w| <= |key| && key[|w|..] == p + s
    ensures |w + p| <= |key| && key[|w + p|..] == s
    ensures p != [] ==> |w| < |key| && key[|w|] == p[0]
  {
    assert key[|w + p|..] == key[|w|..][|p|..];
    assert p != [] ==> key[|w|] == key[|w|..][0];
  }

  /** The rest of a key, and of a proof, with which processing b crashes wherever it starts. */
  lemma {:induction false} TripPlan(b: Bytes, n: nat) returns (s: Nibbles, rest: seq<Bytes>)
    requires TripsIn(b, n)
    ensures |s| <= n && Counted(DecodeNode(b).value) && forall x | x in rest :: |x| < 32
    ensures forall w: Nibbles, key: Nibbles | |w| <= |key| && key[|w|..] == s ::
              Doomed(ProcessNode(DecodeNode(b).value, w, key), key, rest)
    decreases |b|, 0
  {
    hide DecodeNode;
    DecodeShrinks(b);
    var node := DecodeNode(b).value;
    match node
    case LeafNode(p, x) =>
      LeafValueShorter(b);
      s, rest := TripPlan(x, n - |p|);
      LeafPlan(p, x, s, rest);
      s, rest := p + s, [x] + rest;
    case ExtensionNode(p, child) =>
      s, rest := TripPlan(child, n - |p|);
      forall w: Nibbles, key: Nibbles | |w| <= |key| && key[|w|..] == p + s
        ensures Doomed(ProcessNode(node, w, key), key, rest)
      {
        KeyBeyond(w, p, s, key);
      }
      s := p + s;
    case BranchNode(stack, mask) =>
      var i :| 0 <= i < |stack| && ChildTripsIn(stack[i], n - 1);
      s, rest := ChildPlan(stack[i], n - 1);
      var x := RankHit(mask, i, 16);
      forall w: Nibbles, key: Nibbles | |w| <= |key| && key[|w|..] == [x] + s
        ensures Doomed(ProcessNode(node, w, key), key, rest)
      {
        KeyBeyond(w, [x], s, key);
        assert ProcessNode(node, w, key) == ProcessChild(stack[i], w + [x], key);
      }
      s := [x] + s;
  }

  /** A leaf's value is gone on from at the end of the leaf's path. */
  lemma LeafPlan(p: Nibbles, x: Bytes, s: Nibbles, rest: seq<Bytes>)
    requires |x| < 32 && DecodeNode(x).Ok? && Counted(DecodeNode(x).value)
    requires forall w: Nibbles, key: Nibbles | |w| <= |key| && key[|w|..] == s ::
               Doomed(ProcessNode(DecodeNode(x).value, w, key), key, rest)
    ensures forall w: Nibbles, key: Nibbles | |w| <= |key| && key[|w|..] == p + s ::
              Doomed(Reached(Some(Value(x)), w + p), key, [x] + rest)
  {
    hide DecodeNode, ProcessNode, WalkProof;
    forall w: Nibbles, key: Nibbles | |w| <= |key| && key[|w|..] == p + s
      ensures Doomed(Reached(Some(Value(x)), w + p), key, [x] + rest)
    {
      KeyBeyond(w, p, s, key);
      assert Doomed(ProcessNode(DecodeNode(x).value, w + p, key), key, rest);
      ValueDoomed(x, w + p, key, rest);
    }
  }

  lemma {:induction false} ChildPlan(c: Bytes, n: nat) returns (s: Nibbles, rest: seq<Bytes>)
    requires ChildTripsIn(c, n)
    ensures |s| <= n && forall x | x in rest :: |x| < 32
    ensures forall w: Nibbles, key: Nibbles | |w| <= |key| && key[|w|..] == s ::
              Doomed(ProcessChild(c, w, key), key, rest)
    decreases |c|, 1
  {
    hide DecodeNode;
    DecodeShrinks(c);
    var node := DecodeNode(c).value;
    match node
    case LeafNode(p, x) =>
      LeafValueShorter(c);
      s, rest := TripPlan(x, n - |p|);
      LeafPlan(p, x, s, rest);
      s, rest := p + s, [x] + rest;
    case BranchNode(_, _) =>
      s, rest := TripPlan(c, n);
      forall w: Nibbles, key: Nibbles | |w| <= |key| && key[|w|..] == s
        ensures Doomed(ProcessChild(c, w, key), key, rest)
      {
        assert ProcessChild(c, w, key) == ProcessNode(node, w, key);
      }
    case ExtensionNode(p, below) =>
      if DecodeNode(below).value.BranchNode? {
        s, rest := TripPlan(below, n - |p|);
        forall w: Nibbles, key: Nibbles | |w| <= |key| && key[|w|..] == p + s
          ensures Doomed(ProcessChild(c, w, key), key, rest)
        {
          KeyBeyond(w, p, s, key);
          assert ProcessChild(c, w, key) == ProcessNode(DecodeNode(below).value, w + p, key);
        }
        s := p + s;
      } else {
        s, rest := [], [];
      }
  }

  /** Every position of a branch's stack belongs to some nibble of its mask. */
  lemma {:induction false} RankHit(mask: Mask, i: nat, hi: nat) returns (x: Nibble)
    requires hi <= 16 && i < Rank(mask, hi)
    ensures x < hi && x in mask && Rank(mask, x) == i
  {
    if hi - 1 in mask && i == Rank(mask, hi - 1) {
      x := hi - 1;
    } else {
      x := RankHit(mask, i, hi - 1);
    }
  }

  // ----- Not tripping -----

  /** The nibbles of the key that the walk has not used up. */
  function Left(w: Nibbles, key: Nibbles): (n: nat) {
    if |w| <= |key| then |key| - |w| else 0
  }

  /** What processing leads to cannot itself be tripped over with what is left of the key. */
  ghost predicate Safe(r: Processed, key: Nibbles, size: nat) {
    && !r.Panicked?
    && (r.Reached? && r.last.Some? ==>
          match r.last.value
          case Node(ref) => |ref| == 33 <= size
          case Value(y) => |y| < size && !(|y| < 32 && TripsIn(y, Left(r.walked, key))))
  }

  /** A value at the end of a path that does not trip within the budget is safe. */
  lemma LeafSafe(x: Bytes, p: Nibbles, w: Nibbles, key: Nibbles)
    requires !(|p| <= Left(w, key) && |x| < 32 && TripsIn(x, Left(w, key) - |p|))
    ensures !(|x| < 32 && TripsIn(x, Left(w + p, key)))
  {
    hide TripsIn;
    NoBudget(x);
  }

  lemma {:induction false} NodeSafe(b: Bytes, w: Nibbles, key: Nibbles)
    requires DecodeNode(b).Ok? && !TripsIn(b, Left(w, key))
    ensures Counted(DecodeNode(b).value) && Safe(ProcessNode(DecodeNode(b).value, w, key), key, |b|)
    decreases |b|, 0
  {
    hide DecodeNode;
    DecodeShrinks(b);
    match DecodeNode(b).value
    case LeafNode(p, x) =>
      LeafValueShorter(b);
      LeafSafe(x, p, w, key);
    case ExtensionNode(p, child) =>
      if |child| != 33 && DecodeNode(child).Ok? {
        NoBudget(child);
        NodeSafe(child, w + p, key);
      }
    case BranchNode(stack, mask) =>
      if |w| < |key| && key[|w|] in mask {
        RankMonotone(mask, key[|w|], 16);
        ChildSafe(stack[Rank(mask, key[|w|])], w + [key[|w|]], key);
      }
    case EmptyRoot =>
  }

  lemma {:induction false} ChildSafe(c: Bytes, w: Nibbles, key: Nibbles)
    requires !ChildTripsIn(c, Left(w, key))
    ensures Safe(ProcessChild(c, w, key), key, |c|)
    decreases |c|, 1
  {
    hide DecodeNode;
    if |c| != 33 && DecodeNode(c).Ok? {
      DecodeShrinks(c);
      match DecodeNode(c).value
      case LeafNode(p, x) =>
        LeafValueShorter(c);
        LeafSafe(x, p, w, key);
      case BranchNode(_, _) => NodeSafe(c, w, key);
      case ExtensionNode(p, below) =>
        if DecodeNode(below).Ok? {
          NoBudget(below);
          NodeSafe(below, w + p, key);
        }
      case EmptyRoot =>
    }
  }

  lemma {:induction false} ValueSafe(x: Bytes, w: Nibbles, key: Nibbles, proof: seq<Bytes>)
    requires !(|x| < 32 && TripsIn(x, Left(w, key))) && NoPreimage(Some(Value(x)), w, key, proof)
    ensures !WalkProof(Some(Value(x)), w, key, proof).Crashed?
    decreases |proof|
  {
    hide DecodeNode, ProcessNode, TripsIn;
    if proof != [] && x == FromRlp(proof[0]) && DecodeNode(proof[0]).Ok? {
      NodeSafe(x, w, key);
      var s := WalkNode(Some(Value(x)), w, key, proof[0]);
      if s.Walking? && s.last.Some? {
        ValueSafe(s.last.value.Raw(), s.walked, key, proof[1..]);
      } else if s.Walking? && proof[1..] != [] {
        NothingStep(s.walked, key, proof[1..][0]);
      }
    }
  }

  // ----- Past the key -----

  /** Once the walk is as long as the key, nothing can crash, whatever is read. */
  lemma {:induction false} PastKey(n: TrieNode, w: Nibbles, key: Nibbles)
    requires Counted(n) && |key| <= |w|
    ensures var r := ProcessNode(n, w, key); !r.Panicked? && (r.Reached? ==> |w| <= |r.walked|)
    decreases Weight(n)
  {
    hide DecodeNode;
    match n
    case ExtensionNode(p, child) =>
      if |child| != 33 && DecodeNode(child).Ok? {
        DecodeShrinks(child);
        PastKey(DecodeNode(child).value, w + p, key);
      }
    case _ =>
  }

  lemma {:induction false} WalkPastKey(last: Option<NodeDecodingResult>, w: Nibbles, key: Nibbles, proof: seq<Bytes>)
    requires |key| <= |w|
    ensures !WalkProof(last, w, key, proof).Crashed?
    decreases |proof|
  {
    hide DecodeNode, ProcessNode;
    if proof != [] && DecodeNode(proof[0]).Ok? {
      DecodeShrinks(proof[0]);
      PastKey(DecodeNode(proof[0]).value, w, key);
      var s := WalkNode(last, w, key, proof[0]);
      if s.Walking? {
        WalkPastKey(s.last, s.walked, key, proof[1..]);
      }
    }
  }

  // ----- The verifier -----

  /** A panic comes from going on from a value that the trie holds. */
  lemma PanicMeans(t: Trie, key: Nibbles, expected: Option<Bytes>, proof: seq<Bytes>)
    returns (k: Nibbles, v: Bytes, rest: seq<Bytes>)
    requires Proper(t) && Clashless(t, proof) && VerifyProof(RootHash(t), key, expected, proof) == Panic
    ensures Holds(t, [], k, v) && rest != [] && rest[0] in proof
    ensures WalkProof(Some(Value(v)), k, key, rest).Crashed?
    ensures NoPreimage(Some(Node(WordRlp(RootHash(t)))), [], key, proof) ==> NoPreimage(Some(Value(v)), k, key, rest)
    ensures |Encode(t)| >= 32
  {
    if |Encode(t)| < 32 {
      assert proof[0] in proof;
      ShortRootRefused(t, key, proof);
      assert false;
    }
    RootReference(t);
    hide Encode, Reference, RootHash, Proper, NodesFollow, NoPreimage, WalkNode, Holds, WalkProof;
    var n;
    n, k, v := WalkIntoValue(t, [], key, proof);
    rest := proof[n..];
  }

  /** No query that is at most as long as every key of the trie panics, whatever the values are. */
  lemma DeepNeverPanics(t: Trie, key: Nibbles, expected: Option<Bytes>, proof: seq<Bytes>)
    requires Proper(t) && Clashless(t, proof) && forall k, v | Holds(t, [], k, v) :: |key| <= |k|
    ensures VerifyProof(RootHash(t), key, expected, proof) != Panic
  {
    hide Encode, RootHash, Proper, NoPreimage, WalkProof, Holds, VerifyProof;
    if VerifyProof(RootHash(t), key, expected, proof) == Panic {
      var k, v, rest := PanicMeans(t, key, expected, proof);
      WalkPastKey(Some(Value(v)), k, key, rest);
    }
  }

  /** So no query of a map whose keys all have its length, or more, panics. */
  lemma DeepNeverPanicsForMap(m: Entries, key: Nibbles, expected: Option<Bytes>, proof: seq<Bytes>)
    requires PrefixFree(m) && LeavesOnly(m) && m != map[] && Fits(TrieOf(m)) && Clashless(TrieOf(m), proof)
    requires forall k | k in m :: |key| <= |k|
    ensures VerifyProof(RootHash(TrieOf(m)), key, expected, proof) != Panic
  {
    ProperTrie(m);
    hide Fits, TrieOf, RootHash, VerifyProof;
    forall k, v | Holds(TrieOf(m), [], k, v)
      ensures |key| <= |k|
    {
      LookupIsGet(m, k);
    }
    DeepNeverPanics(TrieOf(m), key, expected, proof);
  }

  /** No query panics when no value is the reference of a node of the proof. */
  lemma UnreadNeverPanics(t: Trie, key: Nibbles, expected: Option<Bytes>, proof: seq<Bytes>)
    requires Proper(t) && Clashless(t, proof) && forall b | b in proof :: Unread(t, [], b)
    ensures VerifyProof(RootHash(t), key, expected, proof) != Panic
  {
    hide Encode, RootHash, Proper, NoPreimage, Holds, VerifyProof, ReadsAsNode, FromRlp, WalkNode;
    if VerifyProof(RootHash(t), key, expected, proof) == Panic {
      var k, v, rest := PanicMeans(t, key, expected, proof);
      ValueStep(v, k, key, rest[0]);
    }
  }

  /** Some query of the trie panics on a proof that inverts no hash. */
  ghost predicate CanPanic(t: Trie, key: Nibbles, expected: Option<Bytes>, proof: seq<Bytes>) {
    && Clashless(t, proof) && NoPreimage(Some(Node(WordRlp(RootHash(t)))), [], key, proof)
    && VerifyProof(RootHash(t), key, expected, proof) == Panic
  }

  /** A query panics only when some value of fewer than 32 bytes, under a key that is no longer,
      trips with what is left of the query. */
  lemma PanicTrips(t: Trie, key: Nibbles, expected: Option<Bytes>, proof: seq<Bytes>) returns (k: Nibbles, v: Bytes)
    requires Proper(t) && CanPanic(t, key, expected, proof)
    ensures Holds(t, [], k, v) && |k| <= |key| && |v| < 32 && TripsIn(v, |key| - |k|)
  {
    hide Encode, RootHash, Proper, NoPreimage, WalkProof, Holds, VerifyProof, TripsIn;
    var rest;
    k, v, rest := PanicMeans(t, key, expected, proof);
    if !(|v| < 32 && TripsIn(v, Left(k, key))) {
      ValueSafe(v, k, key, rest);
    }
    NoBudget(v);
  }

  /** A value that trips within n nibbles makes the verifier panic on some query that extends its
      key by at most n. */
  lemma TrippedOver(t: Trie, k: Nibbles, v: Bytes, n: nat, expected: Option<Bytes>)
    returns (key: Nibbles, proof: seq<Bytes>)
    requires Clean(t) && |Encode(t)| >= 32 && Holds(t, [], k, v) && |v| < 32 && TripsIn(v, n)
    ensures k <= key && |key| <= |k| + n && CanPanic(t, key, expected, proof)
  {
    var s, rest := TripPlan(v, n);
    key := k + s;
    assert key[|k|..] == s;
    hide Encode, NoClash, RootHash, Lookup, DecodeNode, WalkNode, NoPreimage, Clashless, Clean, TripsIn;
    ValueDoomed(v, k, key, rest);
    proof := BeyondValue(t, k, v, key, [v] + rest);
  }

  /** The map holds, under a key of at most n nibbles, a value that trips within the rest. */
  ghost predicate HoldsTrip(m: Entries, n: nat)
    requires LeavesOnly(m)
  {
    exists k | k in m :: |k| <= n && |m[k].bytes| < 32 && TripsIn(m[k].bytes, n - |k|)
  }

  /** Some query of at most n nibbles panics on a proof that inverts no hash. */
  ghost predicate SomePanic(t: Trie, n: nat) {
    exists key: Nibbles, expected: Option<Bytes>, proof: seq<Bytes> :: |key| <= n && CanPanic(t, key, expected, proof)
  }

  lemma TripPanics(m: Entries, n: nat)
    requires PrefixFree(m) && LeavesOnly(m) && Clean(TrieOf(m)) && |Encode(TrieOf(m))| >= 32 && HoldsTrip(m, n)
    ensures SomePanic(TrieOf(m), n)
  {
    hide Encode, TrieOf, Lookup, Clean, TripsIn, CanPanic;
    var k :| k in m && |k| <= n && |m[k].bytes| < 32 && TripsIn(m[k].bytes, n - |k|);
    LookupIsGet(m, k);
    var key, proof := TrippedOver(TrieOf(m), k, m[k].bytes, n - |k|, None);
  }

  lemma PanicHoldsTrip(m: Entries, n: nat)
    requires PrefixFree(m) && LeavesOnly(m) && Proper(TrieOf(m)) && SomePanic(TrieOf(m), n)
    ensures HoldsTrip(m, n)
  {
    hide TrieOf, Lookup, Proper, TripsIn, CanPanic;
    var key: Nibbles, expected: Option<Bytes>, proof: seq<Bytes> :|
      |key| <= n && CanPanic(TrieOf(m), key, expected, proof);
    var k, v := PanicTrips(TrieOf(m), key, expected, proof);
    LookupIsGet(m, k);
    MoreBudget(v, |key| - |k|, n - |k|);
  }

  /** For every n: some query of at most n nibbles panics, on a proof that inverts no hash, if and
      only if some value trips within the n nibbles.  A path in the source has at most 64. */
  lemma PanicsExactly(m: Entries, n: nat)
    requires PrefixFree(m) && LeavesOnly(m) && Clean(TrieOf(m)) && |Encode(TrieOf(m))| >= 32
    ensures SomePanic(TrieOf(m), n) <==> HoldsTrip(m, n)
  {
    assert Proper(TrieOf(m));
    hide TrieOf, Encode, Clean, Proper, SomePanic, HoldsTrip;
    if HoldsTrip(m, n) {
      TripPanics(m, n);
    }
    if SomePanic(TrieOf(m), n) {
      PanicHoldsTrip(m, n);
    }
  }
}
