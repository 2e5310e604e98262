/** Looking a key up in a trie, and that the trie of a map answers as the map does. */
module Lookups {
  import opened Primitives
  import opened Tries

  /** No part of the trie is known only by its hash. */
  ghost predicate Whole(t: Trie) {
    match t
    case Stub(_, _) => false
    case Ext(_, c) => Whole(c)
    case Branch(ch) => forall i | 0 <= i < |ch| :: Whole(ch[i])
    case _ => true
  }

  ghost predicate LeavesOnly(m: Entries) {
    forall k | k in m :: m[k].Data?
  }

  /** The value of key in the subtrie t that stands at path w. */
  ghost function Lookup(t: Trie, w: Nibbles, key: Nibbles): (v: Option<Bytes>)
    requires w <= key
    decreases t
  {
    match t
    case Leaf(p, v) => if w + p == key then Some(v) else None
    case Ext(p, c) => if w + p <= key then Lookup(c, w + p, key) else None
    case Branch(ch) =>
      if |w| < |key| && key[|w|] < |ch| then Lookup(ch[key[|w|]], w + [key[|w|]], key) else None
    case _ => None
  }

  /** The subtrie t that stands at path w holds v under k. */
  ghost predicate Holds(t: Trie, w: Nibbles, k: Nibbles, v: Bytes) {
    w <= k && Lookup(t, w, k) == Some(v)
  }

  ghost function Get(m: Entries, key: Nibbles): (v: Option<Bytes>)
    requires LeavesOnly(m)
  {
    if key in m then Some(m[key].bytes) else None
  }

  /** From any path on, the trie answers as the map does. */
  lemma {:induction false} LookupAt(m: Entries, q: Nibbles, key: Nibbles)
    requires PrefixFree(m) && LeavesOnly(m) && q <= key
    ensures Lookup(At(m, q), q, key) == Get(m, key)
    decreases At(m, q)
  {
    hide At;
    AtCanonical(m, q);
    match At(m, q)
    case Empty =>
    case Stub(_, _) => StubMeansHash(m, q);
    case Leaf(p, v) => LeafHolds(m, q);
    case Ext(p, c) =>
      ExtLeadsTo(m, q);
      if q + p <= key {
        LookupAt(m, q + p, key);
      } else {
        assert key in m ==> key in Under(m, q);
      }
    case Branch(ch) =>
      BranchIsBelow(m, q);
      if |q| < |key| {
        var x := key[|q|];
        assert q + [x] <= key;
        LookupAt(m, q + [x], key);
      } else {
        BranchCommon(m, q);
      }
  }

  lemma StubMeansHash(m: Entries, q: Nibbles)
    requires PrefixFree(m) && At(m, q).Stub?
    ensures !LeavesOnly(m)
  {
    var u := Under(m, q);
    CommonLongest(u, q);
    CoreKind(u);
    assert Common(u) in m && m[Common(u)].Hash?;
  }

  /** The trie of a map maps every key as the map does. */
  lemma LookupIsGet(m: Entries, key: Nibbles)
    requires PrefixFree(m) && LeavesOnly(m)
    ensures Lookup(TrieOf(m), [], key) == Get(m, key)
  {
    TrieOfAt(m);
    LookupAt(m, [], key);
  }

  lemma {:induction false} WholeAt(m: Entries, q: Nibbles)
    requires PrefixFree(m) && LeavesOnly(m)
    ensures Whole(At(m, q))
    decreases At(m, q)
  {
    hide At;
    AtCanonical(m, q);
    match At(m, q)
    case Stub(_, _) => StubMeansHash(m, q);
    case Ext(p, c) =>
      ExtLeadsTo(m, q);
      WholeAt(m, q + p);
    case Branch(ch) =>
      BranchIsBelow(m, q);
      forall x: Nibble
        ensures Whole(ch[x])
      {
        WholeAt(m, q + [x]);
      }
    case _ =>
  }
}
