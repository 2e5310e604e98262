/** Bytes, nibbles, words, and the lexicographic order of nibble paths. */
module Primitives {

  type Byte = b: int | 0 <= b < 256
  type Bytes = seq<Byte>

  /** A half byte; a path in the trie is a sequence of nibbles. */
  type Nibble = n: int | 0 <= n < 16
  type Nibbles = seq<Nibble>

  /** A 32-byte word. */
  type Word = w: Bytes | |w| == 32 witness seq(32, _ => 0)

  type Hasher = f: Bytes -> Word | true witness (b: Bytes) => seq(32, _ => 0)

  /** The hash function.  It has no definition: every result of this project holds
      whichever function from byte strings to words it is. */
  const KECCAK: Hasher

  function Keccak(b: Bytes): (w: Word) {
    KECCAK(b)
  }

  datatype Option<+T> = None | Some(value: T)

  /** The RLP code of the empty string, and the reserved hash of the empty trie. */
  const EMPTY_STRING_CODE: Byte := 0x80
  const EMPTY_ROOT_HASH: Word := Keccak([EMPTY_STRING_CODE])

  /** The length of the longest common prefix of two paths. */
  function CommonPrefixLength(a: Nibbles, b: Nibbles): (n: nat)
    ensures n <= |a| && n <= |b|
    ensures a[..n] == b[..n]
    ensures n < |a| && n < |b| ==> a[n] != b[n]
  {
    if a == [] || b == [] || a[0] != b[0] then 0
    else
      var n := CommonPrefixLength(a[1..], b[1..]);
      assert a[..n + 1] == [a[0]] + a[1..][..n] && b[..n + 1] == [b[0]] + b[1..][..n];
      n + 1
  }

  /** The lexicographic order on paths, in which a proper prefix comes first. */
  predicate Less(a: Nibbles, b: Nibbles) {
    var n := CommonPrefixLength(a, b);
    n < |b| && (n == |a| || a[n] < b[n])
  }

  /** Equal prefixes, position by position. */
  lemma AgreeOn<T>(a: seq<T>, b: seq<T>, n: nat)
    requires n <= |a| && n <= |b| && a[..n] == b[..n]
    ensures forall i :: 0 <= i < n ==> a[i] == b[i]
  {
    forall i | 0 <= i < n
      ensures a[i] == b[i]
    {
      assert a[i] == a[..n][i] == b[..n][i];
    }
  }

  /** The common prefix length is the only length with its three properties. */
  lemma CommonPrefixUnique(a: Nibbles, b: Nibbles, n: nat)
    requires n <= |a| && n <= |b| && a[..n] == b[..n]
    requires n < |a| && n < |b| ==> a[n] != b[n]
    ensures CommonPrefixLength(a, b) == n
  {
    var c := CommonPrefixLength(a, b);
    AgreeOn(a, b, c);
    AgreeOn(a, b, n);
  }

  /** The order in terms of the first position at which two paths differ. */
  lemma LessAt(a: Nibbles, b: Nibbles, n: nat)
    requires n < |a| && n < |b| && a[..n] == b[..n] && a[n] != b[n]
    ensures Less(a, b) <==> a[n] < b[n]
    ensures CommonPrefixLength(a, b) == n
  {
    CommonPrefixUnique(a, b, n);
  }

  lemma LessTransitive(a: Nibbles, b: Nibbles, c: Nibbles)
    requires Less(a, b) && Less(b, c)
    ensures Less(a, c)
  {
    var i, j := CommonPrefixLength(a, b), CommonPrefixLength(b, c);
    var n := if i < j then i else j;
    assert a[..n] == a[..i][..n] == b[..i][..n] == b[..n];
    assert c[..n] == c[..j][..n] == b[..j][..n] == b[..n];
    AgreeOn(a, b, i);
    AgreeOn(b, c, j);
    CommonPrefixUnique(a, c, n);
  }

  lemma LessIrreflexive(a: Nibbles)
    ensures !Less(a, a)
  {
    CommonPrefixUnique(a, a, |a|);
  }

  /** Two prefixes of one path are comparable. */
  lemma PrefixesCompare(a: Nibbles, b: Nibbles, k: Nibbles)
    requires a <= k && b <= k
    ensures |a| <= |b| ==> a <= b
  {
  }

  /** Whatever lies between a path and one of its extensions extends it too. */
  lemma Between(k: Nibbles, j: Nibbles, s: Nibbles)
    requires Less(k, j) && Less(j, s) && k <= s
    ensures k <= j
  {
    var c := CommonPrefixLength(k, j);
    if c < |k| {
      assert s[..c] == k[..c] == j[..c] && s[c] == k[c];
      LessAt(s, j, c);
      LessAt(j, s, c);
      assert false;
    }
  }

  lemma PrefixNotLess(a: Nibbles, b: Nibbles)
    requires a <= b
    ensures !Less(b, a)
  {
    CommonPrefixUnique(b, a, |a|);
  }
}
