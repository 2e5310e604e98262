/** Where the verifier's processing of a node leads on the nodes of a trie. */
module Walks {
  import opened Primitives
  import opened Rlp
  import opened Tries
  import opened NodeCodec
  import opened TrieNodes
  import opened Lookups
  import opened Verify

  /** Where processing one node ends: at a child referred to by hash, at a value, or nowhere. */
  datatype Stop =
    | AtNode(node: Trie, walked: Nibbles)
    | AtValue(value: Bytes, walked: Nibbles)
    | AtNothing(walked: Nibbles)

  ghost predicate Hashed(t: Trie) {
    t.Stub? || |Encode(t)| >= 32
  }

  ghost function StopOf(t: Trie, w: Nibbles, key: Nibbles): (s: Stop)
    decreases t, 0
  {
    match t
    case Leaf(p, v) => AtValue(v, w + p)
    case Ext(p, c) => StopAtChild(c, w + p, key)
    case Branch(ch) =>
      if |key| <= |w| || |ch| <= key[|w|] || ch[key[|w|]].Empty? then AtNothing(w)
      else StopAtChild(ch[key[|w|]], w + [key[|w|]], key)
    case _ => AtNothing(w)
  }

  ghost function StopAtChild(c: Trie, w: Nibbles, key: Nibbles): (s: Stop)
    decreases c, 1
  {
    if Hashed(c) then AtNode(c, w) else StopOf(c, w, key)
  }

  ghost function AsLast(s: Stop): (last: Option<NodeDecodingResult>) {
    match s
    case AtNode(t, _) => Some(Node(Reference(t)))
    case AtValue(v, _) => Some(Value(v))
    case AtNothing(_) => None
  }

  // ----- Processing follows the trie -----

  /** Processing a trie's node ends where the trie says, and never panics. */
  lemma {:induction false} ProcessTrie(t: Trie, w: Nibbles, key: Nibbles)
    requires !t.Stub? && !t.Empty? && Canonical(t) && Fits(t) && Counted(NodeOf(t))
    ensures ProcessNode(NodeOf(t), w, key) == Reached(AsLast(StopOf(t, w, key)), StopOf(t, w, key).walked)
    decreases t, 2
  {
    match t
    case Leaf(p, v) =>
    case Ext(p, c) =>
      ReferenceOk(c);
      if !Hashed(c) {
        DecodeTrie(c);
        ProcessTrie(c, w + p, key);
      }
    case Branch(ch) =>
      ProcessTrieBranch(t, w, key);
  }

  lemma {:induction false} ProcessTrieBranch(t: Trie, w: Nibbles, key: Nibbles)
    requires t.Branch? && Canonical(t) && Fits(t) && Counted(NodeOf(t))
    ensures ProcessBranch(NodeOf(t), w, key) == Reached(AsLast(StopOf(t, w, key)), StopOf(t, w, key).walked)
    decreases t, 1
  {
    if |w| < |key| && !t.children[key[|w|]].Empty? {
      var x := key[|w|];
      ChildReferenceAt(t, x, 16);
      ProcessTrieChild(t.children[x], w + [x], key);
    }
  }

  lemma {:induction false} ProcessTrieChild(c: Trie, w: Nibbles, key: Nibbles)
    requires !c.Empty? && Canonical(c) && Fits(c)
    ensures ProcessChild(Reference(c), w, key) == Reached(AsLast(StopAtChild(c, w, key)), StopAtChild(c, w, key).walked)
    decreases c, 3
  {
    hide Encode, DecodeNode, Reference, ProcessBranch;
    ReferenceOk(c);
    if !Hashed(c) {
      DecodeTrie(c);
      match c
      case Leaf(p, v) =>
      case Branch(ch) => ProcessTrieBranch(c, w, key);
      case Ext(p, d) => ProcessTrieExtension(c, w, key);
    }
  }

  lemma {:induction false} ProcessTrieExtension(c: Trie, w: Nibbles, key: Nibbles)
    requires c.Ext? && Canonical(c) && Fits(c) && !Hashed(c)
    requires Reference(c) == Encode(c) && |Reference(c)| != 33 && DecodeNode(Reference(c)) == Ok(NodeOf(c))
    ensures ProcessChild(Reference(c), w, key) == Reached(AsLast(StopOf(c, w, key)), StopOf(c, w, key).walked)
    decreases c, 2
  {
    InPlaceExtension(c);
    var d := c.child;
    ReferenceOk(d);
    DecodeTrie(d);
    ProcessTrieBranch(d, w + c.path, key);
    assert Reference(d) == Encode(d) && !Hashed(d);
    hide Encode, DecodeNode, Reference, ProcessBranch, Fits, Canonical;
    assert NodeOf(c) == ExtensionNode(c.path, Reference(d)) && NodeOf(d).BranchNode?;
    assert ProcessChild(Reference(c), w, key) == ProcessBranch(NodeOf(d), w + c.path, key);
    assert StopOf(c, w, key) == StopOf(d, w + c.path, key);
  }

  /** The child of an extension encoded in place is a branch encoded in place. */
  lemma InPlaceExtension(t: Trie)
    requires t.Ext? && Canonical(t) && |Encode(t)| < 32
    ensures t.child.Branch? && |Encode(t.child)| < 32
  {
    ReferenceOk(t.child);
    var a := EncodeString(HexPrefixes.HexPrefix(t.path, false));
    ConcatTwo(a, Reference(t.child));
    ListLonger([a, Reference(t.child)]);
  }

  // ----- Where a step leads -----

  /** Following from the subtrie s at w to `end` is consistent with looking the key up. */
  ghost predicate Leads(s: Trie, w: Nibbles, key: Nibbles, end: Stop) {
    && w <= end.walked
    && (w <= key ==>
          match end
          case AtNode(s2, w2) => Lookup(s, w, key) == if w2 <= key then Lookup(s2, w2, key) else None
          case AtValue(v, w2) => Lookup(s, w, key) == if w2 == key then Some(v) else None
          case AtNothing(w2) => Lookup(s, w, key) == None)
  }

  lemma {:induction false} StopLeads(t: Trie, w: Nibbles, key: Nibbles)
    requires Canonical(t)
    ensures Leads(t, w, key, StopOf(t, w, key))
    decreases t, 0
  {
    match t
    case Leaf(p, v) =>
    case Ext(p, c) =>
      StopLeadsChild(c, w + p, key);
      if w <= key && !(w + p <= key) {
        Diverged(w + p, StopAtChild(c, w + p, key).walked, key);
      }
    case Branch(ch) =>
      if |w| < |key| && !ch[key[|w|]].Empty? {
        StopLeadsChild(ch[key[|w|]], w + [key[|w|]], key);
        if w <= key {
          assert w + [key[|w|]] <= key;
        }
      }
    case _ =>
  }

  lemma {:induction false} StopLeadsChild(c: Trie, w: Nibbles, key: Nibbles)
    requires Canonical(c)
    ensures Leads(c, w, key, StopAtChild(c, w, key))
    decreases c, 1
  {
    if !Hashed(c) {
      StopLeads(c, w, key);
    }
  }

  /** Once off the key's path, always off it. */
  lemma Diverged(a: Nibbles, b: Nibbles, key: Nibbles)
    requires a <= b && !(a <= key)
    ensures !(b <= key) && b != key
  {
  }

  lemma LeadsOn(s: Trie, w: Nibbles, s2: Trie, w2: Nibbles, key: Nibbles, end: Stop)
    requires Leads(s, w, key, AtNode(s2, w2)) && Leads(s2, w2, key, end)
    ensures Leads(s, w, key, end)
  {
    if w <= key && !(w2 <= key) {
      Diverged(w2, end.walked, key);
    }
  }

  /** The subtrie a step stops at inherits whatever holds of the whole trie. */
  lemma {:induction false} StopInherits(t: Trie, w: Nibbles, key: Nibbles)
    requires Canonical(t) && Fits(t) && Whole(t) && StopOf(t, w, key).AtNode?
    ensures var s := StopOf(t, w, key).node;
            Canonical(s) && Fits(s) && Whole(s) && !s.Empty? && Hashed(s) && s < t
    decreases t, 0
  {
    match t
    case Ext(p, c) =>
      if !Hashed(c) {
        StopInherits(c, w + p, key);
      }
    case Branch(ch) =>
      var c := ch[key[|w|]];
      if !Hashed(c) {
        StopInherits(c, w + [key[|w|]], key);
      }
  }

  /** A value a step stops at is held under the path walked, whatever the key, and the subtrie it
      stops at holds nothing that the trie does not. */
  lemma {:induction false} StopHolds(t: Trie, w: Nibbles, key: Nibbles)
    requires Canonical(t)
    ensures match StopOf(t, w, key)
            case AtValue(v, w2) => Holds(t, w, w2, v)
            case AtNode(s, w2) => forall k, v | Holds(s, w2, k, v) :: Holds(t, w, k, v)
            case AtNothing(_) => true
    decreases t, 0
  {
    hide Encode;
    match t
    case Ext(p, c) =>
      StopHoldsChild(c, w + p, key);
      assert StopOf(t, w, key) == StopAtChild(c, w + p, key);
      forall k, v | Holds(c, w + p, k, v)
        ensures Holds(t, w, k, v)
      {
      }
    case Branch(ch) =>
      if |w| < |key| && !ch[key[|w|]].Empty? {
        var x := key[|w|];
        StopHoldsChild(ch[x], w + [x], key);
        assert StopOf(t, w, key) == StopAtChild(ch[x], w + [x], key);
        forall k, v | Holds(ch[x], w + [x], k, v)
          ensures Holds(t, w, k, v)
        {
        }
      }
    case _ =>
  }

  lemma {:induction false} StopHoldsChild(c: Trie, w: Nibbles, key: Nibbles)
    requires Canonical(c)
    ensures match StopAtChild(c, w, key)
            case AtValue(v, w2) => Holds(c, w, w2, v)
            case AtNode(s, w2) => forall k, v | Holds(s, w2, k, v) :: Holds(c, w, k, v)
            case AtNothing(_) => true
    decreases c, 1
  {
    if !Hashed(c) {
      StopHolds(c, w, key);
    }
  }
}
