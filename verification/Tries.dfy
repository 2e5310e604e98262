/** The Modified Merkle Patricia Trie (appendix D of the Ethereum Yellow Paper) as a
    function of the finite prefix-free map it stores: the specification that the streaming
    builder, the proof retainer and the proof verifier are measured against. */
module Tries {
  import opened Primitives
  import opened Rlp
  import opened HexPrefixes

  /** What a key is mapped to: the value of a leaf, or the hash of a whole branch that is
      known only by its hash; `stored` says whether that branch is in the database. */
  datatype Value = Data(bytes: Bytes) | Hash(word: Word, stored: bool)

  type Entries = map<Nibbles, Value>

  datatype Trie =
    | Empty
    | Leaf(path: Nibbles, value: Bytes)
    | Stub(hash: Word, stored: bool)
    | Ext(path: Nibbles, child: Trie)
    | Branch(children: seq<Trie>)

  ghost predicate PrefixFree(m: Entries) {
    forall a, b | a in m && b in m && a <= b :: a == b
  }

  /** The entries whose keys extend p. */
  ghost function Under(m: Entries, p: Nibbles): (u: Entries) {
    map k | k in m && p <= k :: m[k]
  }

  ghost predicate AllUnder(u: Entries, p: Nibbles) {
    forall k | k in u :: p <= k
  }

  /** c is the longest path that every key of u extends: either a key ends at c or two keys
      part there. */
  ghost predicate IsCommon(u: Entries, c: Nibbles) {
    && AllUnder(u, c)
    && (c in u || exists a, b :: a in u && b in u && Parts(c, a, b))
  }

  ghost predicate Parts(c: Nibbles, a: Nibbles, b: Nibbles) {
    |c| < |a| && |c| < |b| && a[|c|] != b[|c|]
  }

  lemma CommonExists(u: Entries, p: Nibbles, k: Nibbles)
    requires k in u && AllUnder(u, p)
    ensures exists c :: IsCommon(u, c)
    decreases |k| - |p|
  {
    if p in u || exists b :: b in u && Parts(p, k, b) {
      assert IsCommon(u, p);
    } else {
      assert p <= k && p != k;
      var q := p + [k[|p|]];
      forall b | b in u
        ensures q <= b
      {
        assert p <= b && p != b && !Parts(p, k, b);
      }
      CommonExists(u, q, k);
    }
  }

  ghost function Common(u: Entries): (c: Nibbles)
    requires u != map[]
    ensures IsCommon(u, c)
  {
    var k :| k in u;
    CommonExists(u, [], k);
    var c :| IsCommon(u, c);
    c
  }

  /** Every path shared by all keys is a prefix of the common path. */
  lemma CommonLongest(u: Entries, p: Nibbles)
    requires u != map[] && AllUnder(u, p)
    ensures p <= Common(u)
  {
    var c := Common(u);
    if c in u {
    } else {
      var a, b :| a in u && b in u && Parts(c, a, b);
      PrefixesCompare(p, c, a);
      PrefixesCompare(c, p, a);
    }
  }

  lemma CommonIs(u: Entries, c: Nibbles)
    requires u != map[] && IsCommon(u, c)
    ensures Common(u) == c
  {
    CommonLongest(u, c);
    var d := Common(u);
    if c in u {
    } else {
      var a, b :| a in u && b in u && Parts(c, a, b);
    }
  }

  /** Where keys part, every child holds strictly fewer of them. */
  lemma ChildrenSmaller(u: Entries)
    requires u != map[] && Common(u) !in u
    ensures forall x: Nibble | Under(u, Common(u) + [x]) != map[] ::
              && Under(u, Common(u) + [x]).Keys < u.Keys
              && |Common(u)| < |Common(Under(u, Common(u) + [x]))|
  {
    var c := Common(u);
    var a, b :| a in u && b in u && Parts(c, a, b);
    forall x: Nibble | Under(u, c + [x]) != map[]
      ensures Under(u, c + [x]).Keys < u.Keys
      ensures |c| < |Common(Under(u, c + [x]))|
    {
      var s := Under(u, c + [x]);
      assert a !in s || b !in s;
      CommonLongest(s, c + [x]);
    }
  }

  /** The node at the common path of u. */
  ghost function Core(u: Entries): (t: Trie)
    requires u != map[] && PrefixFree(u)
    decreases u.Keys, 0
  {
    var c := Common(u);
    if c in u then
      match u[c]
      case Data(v) => Leaf([], v)
      case Hash(h, stored) => Stub(h, stored)
    else
      ChildrenSmaller(u);
      Branch(seq(16, x requires 0 <= x < 16 => ChildOf(u, x)))
  }

  /** The child at nibble x of the branch at the common path of u. */
  ghost function ChildOf(u: Entries, x: Nibble): (t: Trie)
    requires u != map[] && PrefixFree(u)
    requires Under(u, Common(u) + [x]).Keys < u.Keys
    decreases Under(u, Common(u) + [x]).Keys, 2
  {
    var s := Under(u, Common(u) + [x]);
    if s == map[] then Empty
    else
      CommonLongest(s, Common(u) + [x]);
      Build(s, |Common(u)| + 1)
  }

  /** The trie of u seen from depth d: the part of the common path below d goes into the leaf,
      or into an extension above a branch. */
  ghost function Build(u: Entries, d: nat): (t: Trie)
    requires u != map[] && PrefixFree(u) && d <= |Common(u)|
    decreases u.Keys, 1
  {
    var short := Common(u)[d..];
    match Core(u)
    case Leaf(_, v) => Leaf(short, v)
    case node => if short == [] then node else Ext(short, node)
  }

  /** The trie of a map. */
  ghost function TrieOf(m: Entries): (t: Trie)
    requires PrefixFree(m)
  {
    if m == map[] then Empty else Build(m, 0)
  }

  /** The subtrie at path p. */
  ghost function At(m: Entries, p: Nibbles): (t: Trie)
    requires PrefixFree(m)
  {
    var u := Under(m, p);
    if u == map[] then Empty
    else
      CommonLongest(u, p);
      Build(u, |p|)
  }

  // ----- The shape of the trie at a path -----

  ghost predicate Inhabited(m: Entries, p: Nibbles) {
    exists k :: k in m && p <= k
  }

  lemma UnderInhabited(m: Entries, p: Nibbles)
    ensures Inhabited(m, p) <==> Under(m, p) != map[]
  {
    var u := Under(m, p);
    if u != map[] {
      var k :| k in u;
      assert k in m && p <= k;
    }
    assert forall k | k in m && p <= k :: k in u;
  }

  /** A single key below p gives a leaf, or the hash it stands for. */
  lemma AtSingle(m: Entries, p: Nibbles, k: Nibbles)
    requires PrefixFree(m) && k in m && p <= k
    requires forall j | j in m && p <= j :: j == k
    ensures m[k].Data? ==> At(m, p) == Leaf(k[|p|..], m[k].bytes)
    ensures m[k].Hash? ==> At(m, k) == Stub(m[k].word, m[k].stored)
  {
    var u := Under(m, p);
    assert k in u && u[k] == m[k];
    CoreSingle(u, k);
    var w := Under(m, k);
    assert k in w && w[k] == m[k];
    CoreSingle(w, k);
  }

  lemma CoreSingle(u: Entries, k: Nibbles)
    requires PrefixFree(u) && k in u && AllUnder(u, k)
    ensures Common(u) == k
    ensures u[k].Data? ==> Core(u) == Leaf([], u[k].bytes)
    ensures u[k].Hash? ==> Core(u) == Stub(u[k].word, u[k].stored)
  {
    assert IsCommon(u, k);
    CommonIs(u, k);
  }

  /** Where keys part at p, the core is a branch over the subtries below. */
  lemma CoreBranch(u: Entries, p: Nibbles)
    requires u != map[] && PrefixFree(u) && Common(u) == p && p !in u
    ensures Core(u).Branch? && |Core(u).children| == 16
    ensures forall z: Nibble :: Core(u).children[z] == At(u, p + [z])
  {
    ChildrenSmaller(u);
    var ch := Core(u).children;
    assert ch == seq(16, x requires 0 <= x < 16 => ChildOf(u, x));
    forall z: Nibble
      ensures ch[z] == At(u, p + [z])
    {
      assert ch[z] == ChildOf(u, z);
    }
  }

  lemma TrieOfAt(m: Entries)
    requires PrefixFree(m)
    ensures TrieOf(m) == At(m, [])
  {
    assert Under(m, []) == m;
  }

  /** When every key below p goes on to q, and q is a branch, p is an extension to it. */
  lemma AtSkip(m: Entries, p: Nibbles, q: Nibbles)
    requires PrefixFree(m) && p <= q
    requires forall j | j in m && p <= j :: q <= j
    requires At(m, q).Branch? || At(m, q).Stub?
    ensures At(m, p) == if p == q then At(m, q) else Ext(q[|p|..], At(m, q))
  {
    var u := Under(m, q);
    assert Under(m, p) == u;
    CommonLongest(u, q);
  }

  /** The sixteen subtries one nibble below p. */
  ghost function Below(m: Entries, p: Nibbles): (ts: seq<Trie>)
    requires PrefixFree(m)
    ensures |ts| == 16 && forall x: Nibble :: ts[x] == At(m, p + [x])
  {
    seq(16, x requires 0 <= x < 16 => At(m, p + [x]))
  }

  /** Two keys that part at p make p the common path. */
  lemma CommonAt(m: Entries, p: Nibbles, x: Nibble, y: Nibble)
    requires PrefixFree(m) && x != y && Inhabited(m, p + [x]) && Inhabited(m, p + [y])
    ensures Under(m, p) != map[] && Common(Under(m, p)) == p && p !in Under(m, p)
  {
    var u := Under(m, p);
    var a :| a in m && p + [x] <= a;
    var b :| b in m && p + [y] <= b;
    assert p <= a && p <= b && a in u && b in u;
    assert a[|p|] == x && b[|p|] == y;
    assert Parts(p, a, b);
    assert IsCommon(u, p);
    CommonIs(u, p);
  }

  /** Where keys part at p there is a branch over the subtries below. */
  lemma AtBranch(m: Entries, p: Nibbles, x: Nibble, y: Nibble)
    requires PrefixFree(m) && x != y
    requires Inhabited(m, p + [x]) && Inhabited(m, p + [y])
    ensures At(m, p) == Branch(Below(m, p))
  {
    CommonAt(m, p, x, y);
    var u := Under(m, p);
    AtCore(m, p);
    CoreBranch(u, p);
    forall z: Nibble
      ensures Core(u).children[z] == Below(m, p)[z]
    {
      AtUnder(m, p, p + [z]);
    }
  }

  lemma AtCore(m: Entries, p: Nibbles)
    requires PrefixFree(m) && Under(m, p) != map[] && Common(Under(m, p)) == p
    requires p !in Under(m, p)
    ensures At(m, p) == Core(Under(m, p))
  {
  }

  lemma AtUnder(m: Entries, p: Nibbles, q: Nibbles)
    requires PrefixFree(m) && p <= q
    ensures PrefixFree(Under(m, p)) && At(Under(m, p), q) == At(m, q)
  {
    assert Under(Under(m, p), q) == Under(m, q);
  }

  /** A branch at p is over the subtries one nibble below. */
  lemma BranchIsBelow(m: Entries, p: Nibbles)
    requires PrefixFree(m) && At(m, p).Branch?
    ensures At(m, p) == Branch(Below(m, p))
  {
    var u := Under(m, p);
    BranchCommon(m, p);
    CoreBranch(u, p);
    forall z: Nibble
      ensures Core(u).children[z] == Below(m, p)[z]
    {
      AtUnder(m, p, p + [z]);
    }
  }

  lemma BranchCommon(m: Entries, p: Nibbles)
    requires PrefixFree(m) && At(m, p).Branch?
    ensures var u := Under(m, p); u != map[] && Common(u) == p && p !in u && Core(u) == At(m, p)
  {
    var u := Under(m, p);
    CommonLongest(u, p);
    CoreKind(u);
  }

  /** The core is a branch exactly when no key ends at the common path. */
  lemma CoreKind(u: Entries)
    requires u != map[] && PrefixFree(u)
    ensures Core(u).Branch? <==> Common(u) !in u
    ensures Core(u).Stub? ==> u[Common(u)].Hash?
  {
  }

  /** An extension at p leads to the subtrie at its end, and every key below p goes there. */
  lemma ExtLeadsTo(m: Entries, p: Nibbles)
    requires PrefixFree(m) && At(m, p).Ext?
    ensures At(m, p).child == At(m, p + At(m, p).path)
    ensures Under(m, p) == Under(m, p + At(m, p).path)
  {
    var u := Under(m, p);
    CommonLongest(u, p);
    var c := Common(u);
    assert c == p + c[|p|..];
    assert Under(m, c) == u;
    CoreNotExt(u);
  }

  lemma CoreNotExt(u: Entries)
    requires u != map[] && PrefixFree(u)
    ensures !Core(u).Ext? && !Core(u).Empty?
  {
  }

  /** A leaf at p holds the only key below p. */
  lemma LeafHolds(m: Entries, p: Nibbles)
    requires PrefixFree(m) && At(m, p).Leaf?
    ensures p + At(m, p).path in m && m[p + At(m, p).path] == Data(At(m, p).value)
    ensures forall k | k in m && p <= k :: k == p + At(m, p).path
  {
    var u := Under(m, p);
    CommonLongest(u, p);
    var c := Common(u);
    if c in u {
      CoreSingle(u, c);
      assert c == p + c[|p|..];
      forall k | k in m && p <= k
        ensures k == c
      {
        assert k in u;
      }
    } else {
      CoreBranch(u, c);
    }
  }

  /** The trie depends only on the keys below the path. */
  lemma AtFrame(m: Entries, m': Entries, p: Nibbles)
    requires PrefixFree(m) && PrefixFree(m') && Under(m, p) == Under(m', p)
    ensures At(m, p) == At(m', p)
  {
  }

  // ----- Canonical shape -----

  /** The shape every trie has: a branch has sixteen slots of which at least two are used, an
      extension has a non-empty path to a branch. */
  ghost predicate Canonical(t: Trie) {
    match t
    case Empty => true
    case Leaf(_, _) => true
    case Stub(_, _) => true
    case Ext(p, c) => p != [] && (c.Branch? || c.Stub?) && Canonical(c)
    case Branch(ch) =>
      && |ch| == 16
      && (exists i, j :: 0 <= i < j < 16 && !ch[i].Empty? && !ch[j].Empty?)
      && forall i | 0 <= i < 16 :: Canonical(ch[i])
  }

  lemma BranchCanonical(u: Entries)
    requires u != map[] && PrefixFree(u) && Common(u) !in u
    requires forall x: Nibble | Under(u, Common(u) + [x]) != map[] ::
               Canonical(At(u, Common(u) + [x])) && !At(u, Common(u) + [x]).Empty?
    ensures Core(u).Branch? && Canonical(Core(u))
  {
    var c := Common(u);
    CoreBranch(u, c);
    var ch := Core(u).children;
    forall x: Nibble
      ensures Canonical(ch[x])
    {
      assert ch[x] == At(u, c + [x]);
    }
    var a, b :| a in u && b in u && Parts(c, a, b);
    UnderNext(u, c, a);
    UnderNext(u, c, b);
    assert !ch[a[|c|]].Empty? && !ch[b[|c|]].Empty?;
  }

  /** A key beyond c lies under the child its next nibble names. */
  lemma UnderNext(u: Entries, c: Nibbles, a: Nibbles)
    requires a in u && c <= a && |c| < |a|
    ensures a in Under(u, c + [a[|c|]])
  {
  }

  lemma {:induction false} BuildCanonical(u: Entries, d: nat)
    requires u != map[] && PrefixFree(u) && d <= |Common(u)|
    ensures Canonical(Build(u, d)) && Canonical(Core(u)) && !Build(u, d).Empty?
    decreases u.Keys
  {
    var c := Common(u);
    if c in u {
      CoreSingle(u, c);
    } else {
      forall x: Nibble | Under(u, c + [x]) != map[]
        ensures Canonical(At(u, c + [x])) && !At(u, c + [x]).Empty?
      {
        ChildrenSmaller(u);
        BuildCanonical(Under(u, c + [x]), |c| + 1);
      }
      BranchCanonical(u);
    }
  }

  lemma AtCanonical(m: Entries, p: Nibbles)
    requires PrefixFree(m)
    ensures Canonical(At(m, p)) && (At(m, p).Empty? <==> !Inhabited(m, p))
  {
    var u := Under(m, p);
    UnderInhabited(m, p);
    if u != map[] {
      CommonLongest(u, p);
      BuildCanonical(u, |p|);
    }
  }

  // ----- Encoding and hashing -----

  function WordRlp(w: Word): (r: Bytes) {
    [EMPTY_STRING_CODE + 32] + w
  }

  /** The reference by which a parent holds an encoded node: the node itself when it is
      shorter than a word, otherwise its hash. */
  function FromRlp(rlp: Bytes): (r: Bytes) {
    if |rlp| < 32 then rlp else WordRlp(Keccak(rlp))
  }

  /** The RLP of a node.  A stub is known only by its hash, so it has references but no
      encoding of its own. */
  function Encode(t: Trie): (b: Bytes)
    decreases t, 0
  {
    match t
    case Empty => [EMPTY_STRING_CODE]
    case Leaf(p, v) => EncodeList([EncodeString(HexPrefix(p, true)), EncodeString(v)])
    case Stub(h, _) => WordRlp(h)
    case Ext(p, c) => EncodeList([EncodeString(HexPrefix(p, false)), Reference(c)])
    case Branch(ch) =>
      EncodeList(seq(|ch|, i requires 0 <= i < |ch| => Reference(ch[i])) + [[EMPTY_STRING_CODE]])
  }

  function Reference(t: Trie): (r: Bytes)
    decreases t, 1
  {
    if t.Stub? then WordRlp(t.hash) else FromRlp(Encode(t))
  }

  function RootHash(t: Trie): (w: Word) {
    if t.Stub? then t.hash else Keccak(Encode(t))
  }
}
