/** The encoders of leaf, extension and branch nodes, as the source writes them: header first,
    from a payload length computed in advance, then the fields in turn. */
module Nodes {
  import opened Primitives
  import opened Rlp
  import opened HexPrefixes
  import opened Masks
  import opened Tries

  // ----- Leaves and extensions -----

  /** The length of the encoded path, computed without encoding it. */
  function PathLength(key: Nibbles): (n: nat) {
    var n := |key| / 2 + 1;
    if n != 1 then n + LengthOfLength(n) else n
  }

  lemma PathLengthExact(key: Nibbles, leaf: bool)
    ensures PathLength(key) == |EncodeString(HexPrefix(key, leaf))|
  {
    HexPrefixShape(key, leaf);
  }

  /** The header announces the exact length of the two fields. */
  method EncodeLeaf(key: Nibbles, value: Bytes) returns (out: Bytes)
    ensures out == Encode(Leaf(key, value))
    ensures |out| == LengthOfLength(PathLength(key) + StringLength(value)) + PathLength(key) + StringLength(value)
  {
    out := EncodeHeader(true, PathLength(key) + StringLength(value));
    out := out + EncodeString(HexPrefix(key, true));
    out := out + EncodeString(value);
    PathLengthExact(key, true);
    ConcatTwo(EncodeString(HexPrefix(key, true)), EncodeString(value));
  }

  /** The child is already encoded, or is the reference to an encoded child. */
  function ExtensionRlp(key: Nibbles, child: Bytes): (r: Bytes) {
    EncodeList([EncodeString(HexPrefix(key, false)), child])
  }

  method EncodeExtension(key: Nibbles, child: Bytes) returns (out: Bytes)
    ensures out == ExtensionRlp(key, child)
    ensures |out| == LengthOfLength(PathLength(key) + |child|) + PathLength(key) + |child|
  {
    out := EncodeHeader(true, PathLength(key) + |child|);
    out := out + EncodeString(HexPrefix(key, false));
    out := out + child;
    PathLengthExact(key, false);
    ConcatTwo(EncodeString(HexPrefix(key, false)), child);
  }

  // ----- Branches -----

  /** What a branch writes for nibble x, given the references of its present children in
      ascending order. */
  function Slot(refs: seq<Bytes>, mask: Mask, x: Nibble): (r: Bytes)
    requires |refs| == Rank(mask, 16)
  {
    if x in mask then
      RankMonotone(mask, x, 16);
      refs[Rank(mask, x)]
    else [EMPTY_STRING_CODE]
  }

  function Slots(refs: seq<Bytes>, mask: Mask, hi: nat): (r: seq<Bytes>)
    requires |refs| == Rank(mask, 16) && hi <= 16
    ensures |r| == hi && forall x: Nibble | x < hi :: r[x] == Slot(refs, mask, x)
  {
    seq(hi, x requires 0 <= x < hi => Slot(refs, mask, x))
  }

  function BranchRlp(refs: seq<Bytes>, mask: Mask): (r: Bytes)
    requires |refs| == Rank(mask, 16)
  {
    EncodeList(Slots(refs, mask, 16) + [[EMPTY_STRING_CODE]])
  }

  /** The references a branch takes from the end of the stack. */
  function Tail(stack: seq<Bytes>, mask: Mask): (refs: seq<Bytes>)
    requires Rank(mask, 16) <= |stack|
    ensures |refs| == Rank(mask, 16)
  {
    stack[|stack| - Rank(mask, 16)..]
  }

  lemma SlotsNext(refs: seq<Bytes>, mask: Mask, x: Nibble)
    requires |refs| == Rank(mask, 16)
    ensures Concat(Slots(refs, mask, x + 1)) == Concat(Slots(refs, mask, x)) + Slot(refs, mask, x)
  {
    assert Slots(refs, mask, x + 1) == Slots(refs, mask, x) + [Slot(refs, mask, x)];
    ConcatAppend(Slots(refs, mask, x), Slot(refs, mask, x));
  }

  /** `rlp_payload_length`: walks the sixteen slots and the stack tail together. */
  method BranchPayloadLength(stack: seq<Bytes>, mask: Mask) returns (n: nat)
    requires Rank(mask, 16) <= |stack|
    ensures n == |Concat(Slots(Tail(stack, mask), mask, 16) + [[EMPTY_STRING_CODE]])|
  {
    n := 1;
    var refs := Tail(stack, mask);
    var ptr := |stack| - Rank(mask, 16);
    for x := 0 to 16
      invariant ptr == |stack| - Rank(mask, 16) + Rank(mask, x)
      invariant n == 1 + |Concat(Slots(refs, mask, x))|
    {
      SlotsNext(refs, mask, x);
      if x in mask {
        RankMonotone(mask, x, 16);
        n := n + |stack[ptr]|;
        ptr := ptr + 1;
      } else {
        n := n + 1;
      }
    }
    ConcatAppend(Slots(refs, mask, 16), [EMPTY_STRING_CODE]);
  }

  /** A branch is written as seventeen items: its children at their nibbles and an empty value. */
  method EncodeBranch(stack: seq<Bytes>, mask: Mask) returns (out: Bytes)
    requires Rank(mask, 16) <= |stack|
    ensures out == BranchRlp(Tail(stack, mask), mask)
  {
    var n := BranchPayloadLength(stack, mask);
    out := EncodeHeader(true, n);
    var refs := Tail(stack, mask);
    var ptr := |stack| - Rank(mask, 16);
    for x := 0 to 16
      invariant ptr == |stack| - Rank(mask, 16) + Rank(mask, x)
      invariant out == EncodeHeader(true, n) + Concat(Slots(refs, mask, x))
    {
      SlotsNext(refs, mask, x);
      if x in mask {
        RankMonotone(mask, x, 16);
        out := out + stack[ptr];
        ptr := ptr + 1;
      } else {
        out := out + [EMPTY_STRING_CODE];
      }
    }
    out := out + [EMPTY_STRING_CODE];
    ConcatAppend(Slots(refs, mask, 16), [EMPTY_STRING_CODE]);
  }

  /** The words inside the references at the nibbles of hashMask, in ascending order. */
  function HashesIn(refs: seq<Bytes>, mask: Mask, hashMask: Mask, hi: nat): (r: seq<Word>)
    requires |refs| == Rank(mask, 16) && hi <= 16
    requires forall x: Nibble | x in mask && x in hashMask :: |Slot(refs, mask, x)| == 33
  {
    if hi == 0 then []
    else
      HashesIn(refs, mask, hashMask, hi - 1) +
      if hi - 1 in mask && hi - 1 in hashMask then [Slot(refs, mask, hi - 1)[1..]] else []
  }

  /** `child_hashes` slices a word out of each reference it selects, so each must be the
      33-byte reference of a hashed child. */
  method ChildHashesOf(stack: seq<Bytes>, mask: Mask, hashMask: Mask) returns (hashes: seq<Word>)
    requires Rank(mask, 16) <= |stack|
    requires forall x: Nibble | x in mask && x in hashMask :: |Slot(Tail(stack, mask), mask, x)| == 33
    ensures hashes == HashesIn(Tail(stack, mask), mask, hashMask, 16)
  {
    hashes := [];
    ghost var refs := Tail(stack, mask);
    var ptr := |stack| - Rank(mask, 16);
    for x := 0 to 16
      invariant ptr == |stack| - Rank(mask, 16) + Rank(mask, x)
      invariant hashes == HashesIn(refs, mask, hashMask, x)
    {
      if x in mask {
        RankMonotone(mask, x, 16);
        if x in hashMask {
          assert stack[ptr] == Slot(refs, mask, x);
          hashes := hashes + [stack[ptr][1..]];
        }
        ptr := ptr + 1;
      }
    }
  }
}
