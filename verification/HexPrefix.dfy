/** Hex-prefix encoding of paths (appendix C of the Ethereum Yellow Paper). */
module HexPrefixes {
  import opened Primitives

  function Join(high: int, low: int): (b: int) {
    16 * high + low
  }

  /** Packs pairs of nibbles into bytes. */
  function Pack(x: Nibbles): (b: Bytes)
    requires |x| % 2 == 0
  {
    if x == [] then [] else [Join(x[0], x[1])] + Pack(x[2..])
  }

  /** The nibbles of a byte string, high nibble first. */
  function Unpack(b: Bytes): (x: Nibbles) {
    if b == [] then [] else [b[0] / 16, b[0] % 16] + Unpack(b[1..])
  }

  /** The compact form of a path: a flag nibble for node kind and parity, then the path. */
  function HexPrefix(x: Nibbles, leaf: bool): (b: Bytes) {
    var flag := if leaf then 2 else 0;
    if |x| % 2 == 0 then [16 * flag] + Pack(x)
    else [16 * (flag + 1) + x[0]] + Pack(x[1..])
  }

  lemma {:induction false} PackLength(x: Nibbles)
    requires |x| % 2 == 0
    ensures |Pack(x)| == |x| / 2
  {
    if x != [] {
      PackLength(x[2..]);
    }
  }

  /** The compact form is one byte longer than the packed path, and its first byte is below
      0x40, so that alone it is its own RLP. */
  lemma HexPrefixShape(x: Nibbles, leaf: bool)
    ensures |HexPrefix(x, leaf)| == |x| / 2 + 1 && HexPrefix(x, leaf)[0] < 0x40
  {
    if |x| % 2 == 0 {
      PackLength(x);
    } else {
      PackLength(x[1..]);
    }
  }

  lemma {:induction false} UnpackLength(b: Bytes)
    ensures |Unpack(b)| == 2 * |b|
  {
    if b != [] {
      UnpackLength(b[1..]);
    }
  }

  /** Reads a compact path: whether it belongs to a leaf, and the path; None when the flag nibble
      is none of the four.  With an even flag the low nibble of the first byte is not looked at. */
  function DecodePath(b: Bytes): (r: Option<(bool, Nibbles)>)
    requires b != []
  {
    var flag := b[0] / 16;
    if flag == 1 || flag == 3 then Some((flag == 3, [b[0] % 16] + Unpack(b[1..])))
    else if flag == 0 || flag == 2 then Some((flag == 2, Unpack(b[1..])))
    else None
  }

  lemma {:induction false} UnpackPack(x: Nibbles)
    requires |x| % 2 == 0
    ensures Unpack(Pack(x)) == x
  {
    if x != [] {
      UnpackPack(x[2..]);
      JoinSplit(x[0], x[1]);
      var b := Pack(x);
      assert b == [Join(x[0], x[1])] + Pack(x[2..]);
      assert b[1..] == Pack(x[2..]);
      hide Join, Pack;
      assert Unpack(b) == [x[0], x[1]] + x[2..];
    }
  }

  lemma JoinSplit(high: Nibble, low: Nibble)
    ensures 0 <= Join(high, low) < 256 && Join(high, low) / 16 == high && Join(high, low) % 16 == low
  {
  }

  /** Every path is read back from its compact form. */
  lemma PathRoundTrip(x: Nibbles, leaf: bool)
    ensures HexPrefix(x, leaf) != [] && DecodePath(HexPrefix(x, leaf)) == Some((leaf, x))
  {
    var b := HexPrefix(x, leaf);
    if |x| % 2 == 0 {
      UnpackPack(x);
      assert b[1..] == Pack(x);
    } else {
      UnpackPack(x[1..]);
      assert b[1..] == Pack(x[1..]);
      assert [x[0]] + x[1..] == x;
    }
  }

  /** The nibbles of a compact path: the flag nibble, a zero nibble where the path is even, and the
      path.  The flag is 0 and 1 for an even and an odd extension, 2 and 3 for a leaf. */
  lemma HexPrefixNibbles(x: Nibbles, leaf: bool)
    ensures Unpack(HexPrefix(x, leaf)) ==
            (if |x| % 2 == 0 then [if leaf then 2 else 0, 0] else [if leaf then 3 else 1]) + x
  {
    var b := HexPrefix(x, leaf);
    if |x| % 2 == 0 {
      UnpackPack(x);
      assert b[1..] == Pack(x);
    } else {
      UnpackPack(x[1..]);
      assert b[1..] == Pack(x[1..]);
      assert [x[0]] + x[1..] == x;
    }
  }

  /** Which byte strings are read as a compact path, and as what: the flag is below four, its
      second bit says leaf and its first bit says that the path starts one nibble earlier. */
  lemma PathReadExactly(b: Bytes, u: Nibbles)
    requires b != [] && u == Unpack(b)
    ensures |u| >= 2
    ensures DecodePath(b) ==
            if u[0] >= 4 then None else Some((u[0] >= 2, u[if u[0] == 1 || u[0] == 3 then 1 else 2..]))
  {
    UnpackHead(b);
    PathOf(b, u, u[0], u[1]);
  }

  lemma UnpackHead(b: Bytes)
    requires b != []
    ensures Unpack(b) == [b[0] / 16, b[0] % 16] + Unpack(b[1..])
  {
  }

  lemma PathOf(b: Bytes, u: Nibbles, flag: Nibble, low: Nibble)
    requires b != [] && flag == b[0] / 16 && low == b[0] % 16 && u == [flag, low] + Unpack(b[1..])
    ensures DecodePath(b) ==
            if flag >= 4 then None else Some((flag >= 2, u[if flag == 1 || flag == 3 then 1 else 2..]))
  {
    hide Unpack;
    assert u[2..] == Unpack(b[1..]) && u[1..] == [low] + Unpack(b[1..]);
  }

  /** Packing undoes unpacking. */
  lemma {:induction false} PackUnpack(b: Bytes)
    ensures |Unpack(b)| == 2 * |b| && Pack(Unpack(b)) == b
  {
    if b != [] {
      PackUnpack(b[1..]);
      var u := Unpack(b);
      assert u[2..] == Unpack(b[1..]);
      hide Unpack;
      assert Join(u[0], u[1]) == b[0];
      assert [b[0]] + b[1..] == b;
    }
  }

  /** Nibble 2i is the high half of byte i, nibble 2i + 1 its low half. */
  lemma {:induction false} UnpackAt(b: Bytes, i: nat)
    requires i < |b|
    ensures |Unpack(b)| == 2 * |b| && Unpack(b)[2 * i] == b[i] / 16 && Unpack(b)[2 * i + 1] == b[i] % 16
  {
    UnpackLength(b);
    if i > 0 {
      UnpackAt(b[1..], i - 1);
    }
  }
}
