/** What the verifier says when it does not accept: which error, at which path, and what it found
    and expected there. */
module Refusals {
  import opened Primitives
  import opened Rlp
  import opened Tries
  import opened NodeCodec
  import opened Lookups
  import opened Verify
  import opened Walks
  import opened VerifySound
  import opened VerifyComplete

  lemma {:induction false} WalkAppend(last: Option<NodeDecodingResult>, w: Nibbles, key: Nibbles, a: seq<Bytes>,
                                      b: seq<Bytes>)
    requires WalkProof(last, w, key, a).Walking?
    ensures var s := WalkProof(last, w, key, a);
            WalkProof(last, w, key, a + b) == WalkProof(s.last, s.walked, key, b)
    decreases |a|
  {
    hide WalkNode;
    if a == [] {
      assert a + b == b;
    } else {
      var s := WalkNode(last, w, key, a[0]);
      WalkAppend(s.last, s.walked, key, a[1..], b);
      assert (a + b)[1..] == a[1..] + b && (a + b)[0] == a[0];
    }
  }

  /** No proof at all, or one that starts with the empty node, for the root of a trie that is not
      empty. */
  lemma NothingRefused(t: Trie, key: Nibbles, expected: Option<Bytes>, proof: seq<Bytes>)
    requires Proper(t) && NoClash(t, [EMPTY_STRING_CODE]) && (proof == [] || proof[0] == [0x80])
    ensures VerifyProof(RootHash(t), key, expected, proof) == Refused(RootMismatch(Keccak([0x80]), Keccak(Encode(t))))
  {
    NotEmptyRoot(t);
  }

  /** The whole chain of a key: the verdict tells the key's value from what was expected. */
  lemma ChainVerdict(t: Trie, key: Nibbles, expected: Option<Bytes>)
    requires Proper(t) && AllHashed(Chain(t, [], key))
    ensures var got := Lookup(t, [], key);
            VerifyProof(RootHash(t), key, expected, Encodings(Chain(t, [], key))) ==
            if expected == got then Accepted else Refused(ValueMismatch(key, got, expected))
  {
    hide Encode, Reference, Lookup, Chain, Proper, WalkProof, RootHash, AllHashed;
    var chain := Chain(t, [], key);
    ChainHead(t, [], key);
    ChainAccepted(t, [], key);
    NotEmptyString(t);
    RootReference(t);
    assert Encodings(chain)[0] == Encode(t);
  }

  lemma RootReference(t: Trie)
    requires Proper(t) && |Encode(t)| >= 32
    ensures Reference(t) == WordRlp(RootHash(t))
  {
    hide Encode;
  }

  /** A node in the place of another: the verdict names the path where it was to stand, the node
      found and the reference expected. */
  lemma WrongNodeVerdict(t: Trie, key: Nibbles, n: nat, b: Bytes, tail: seq<Bytes>, expected: Option<Bytes>)
    requires Proper(t) && n < |Chain(t, [], key)| && |Encode(Chain(t, [], key)[n].node)| >= 32
    requires |b| >= 32 ==> Keccak(b) != Keccak(Encode(Chain(t, [], key)[n].node))
    requires n == 0 ==> b != [0x80]
    ensures var out := Chain(t, [], key)[n];
            VerifyProof(RootHash(t), key, expected, Encodings(Chain(t, [], key))[..n] + [b] + tail) ==
            Refused(ValueMismatch(out.path, Some(b), Some([0xA0] + Keccak(Encode(out.node)))))
  {
    hide Encode, Chain, Proper, WalkProof, RootHash, Reference, DecodeNode;
    var chain := Chain(t, [], key);
    var out := chain[n];
    var before := Encodings(chain)[..n];
    ChainHead(t, [], key);
    ChainCut(t, [], key, n);
    LongAbove(t, [], key, n);
    NotEmptyString(t);
    RootReference(t);
    NoStubOnChain(t, [], key, n);
    assert n > 0 ==> before[0] == Encode(t);
    var start := Some(Node(Reference(t)));
    WalkAppend(start, [], key, before, [b] + tail);
    assert before + [b] + tail == before + ([b] + tail);
    WrongNode(out.node, out.path, key, b, tail);
  }

  lemma WrongNode(t: Trie, w: Nibbles, key: Nibbles, b: Bytes, tail: seq<Bytes>)
    requires !t.Stub? && |Encode(t)| >= 32 && (|b| >= 32 ==> Keccak(b) != Keccak(Encode(t)))
    ensures WalkProof(Some(Node(Reference(t))), w, key, [b] + tail) ==
            Rejected(ValueMismatch(w, Some(b), Some([0xA0] + Keccak(Encode(t)))))
  {
    hide Encode, DecodeNode;
    var proof := [b] + tail;
    assert proof[0] == b;
    assert Reference(t) == [0xA0] + Keccak(Encode(t));
    assert FromRlp(b) != Reference(t) by {
      assert |b| >= 32 ==> FromRlp(b)[1..] == Keccak(b);
      assert Reference(t)[1..] == Keccak(Encode(t));
    }
  }

  lemma {:induction false} NoStubOnChain(t: Trie, w: Nibbles, key: Nibbles, n: nat)
    requires Proper(t) && w <= key && n < |Chain(t, w, key)|
    ensures !Chain(t, w, key)[n].node.Stub?
    decreases t
  {
    hide Encode, Chain, Lookup, StopOf;
    ChainHead(t, w, key);
    OnPathFacts(t, w, key);
    if n > 0 {
      var (c, w2) := OnPath(t, w, key).value;
      NoStubOnChain(c, w2, key, n - 1);
    }
  }

  /** A chain that reached the key's value, followed by that value as if it were a node: what does
      not decode, and the empty node, are refused by name. */
  lemma PastValueVerdict(t: Trie, key: Nibbles, v: Bytes, tail: seq<Bytes>, expected: Option<Bytes>)
    requires Proper(t) && AllHashed(Chain(t, [], key)) && Lookup(t, [], key) == Some(v) && |v| < 32
    ensures var verdict := VerifyProof(RootHash(t), key, expected, Encodings(Chain(t, [], key)) + [v] + tail);
            && (v == [0x80] ==> verdict == Refused(UnexpectedEmptyRoot))
            && (DecodeNode(v).Err? ==> verdict == Refused(RlpError(DecodeNode(v).error)))
  {
    hide Encode, Reference, Lookup, Chain, Proper, WalkProof, RootHash, AllHashed, DecodeNode;
    var chain := Encodings(Chain(t, [], key));
    ChainHead(t, [], key);
    ChainAccepted(t, [], key);
    NotEmptyString(t);
    RootReference(t);
    var start := Some(Node(Reference(t)));
    WalkAppend(start, [], key, chain, [v] + tail);
    assert chain + [v] + tail == chain + ([v] + tail);
    assert chain[0] == Encode(t);
    var s := WalkProof(start, [], key, chain);
    PastValue(s.last, s.walked, key, v, tail);
  }

  lemma PastValue(last: Option<NodeDecodingResult>, w: Nibbles, key: Nibbles, v: Bytes, tail: seq<Bytes>)
    requires RawLast(last) == Some(v) && |v| < 32
    ensures var r := WalkProof(last, w, key, [v] + tail);
            && (v == [0x80] ==> r == Rejected(UnexpectedEmptyRoot))
            && (DecodeNode(v).Err? ==> r == Rejected(RlpError(DecodeNode(v).error)))
  {
    var proof := [v] + tail;
    assert proof[0] == v;
    if v == [0x80] {
      assert DecodeNode(v) == Ok(EmptyRoot);
    }
    hide DecodeNode;
  }
}
