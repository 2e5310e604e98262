/** Which byte strings the second branch decoder reads, and as which branch.  It takes a child's length
    to be that of its payload and of a header for it, so a byte that is its own payload takes the
    byte after it along. */
module BranchReadings {
  import opened Primitives
  import opened Rlp
  import opened Masks
  import opened Nodes
  import opened NodeCodec
  import opened Verify
  import NodeReadings

  /** What the decoder takes for a child: an item other than the empty string, or a byte below 0x80
      and the byte after it. */
  predicate Piece(s: Bytes) {
    s != [] && |s| <= 33 && if s[0] < 0x80 then |s| == 2 else IsItem(s) && s[0] != 0x80
  }

  ghost predicate PiecesFrom(stack: seq<Bytes>, lo: nat) {
    forall i | lo <= i < |stack| :: Piece(stack[i])
  }

  lemma SlotsNext(stack: seq<Bytes>, mask: Mask, x: Nibble)
    requires |stack| == Rank(mask, 16)
    ensures Concat(Slots(stack, mask, 16)[x..]) == Slot(stack, mask, x) + Concat(Slots(stack, mask, 16)[x + 1..])
  {
    var r := Slots(stack, mask, 16)[x..];
    assert r[0] == Slot(stack, mask, x) && r[1..] == Slots(stack, mask, 16)[x + 1..];
  }

  // ----- One child -----

  lemma ChildIsPiece(bytes: Bytes)
    requires |bytes| > 1 && bytes[0] != 0x80 && DecodeHeader(bytes).Ok? && ChildLength(bytes) <= 33
    ensures Piece(bytes[..ChildLength(bytes)])
  {
    var len := ChildLength(bytes);
    if bytes[0] >= 0x80 {
      FirstItem(bytes, len);
    }
    hide DecodeHeader, IsItem;
    assert bytes[..len][0] == bytes[0];
  }

  lemma PieceIsChild(s: Bytes, rest: Bytes)
    requires Piece(s) && rest != []
    ensures var bytes := s + rest;
            |bytes| > 1 && bytes[0] != 0x80 && DecodeHeader(bytes).Ok? && ChildLength(bytes) == |s| && bytes[..|s|] == s
  {
    var bytes := s + rest;
    assert bytes[0] == s[0] && bytes[..|s|] == s;
    if s[0] >= 0x80 {
      ItemThen(s, rest);
    }
  }

  // ----- All children -----

  /** What the loop read, when it ends well: the slots from its nibble on, and an empty value. */
  lemma {:induction false} BranchFromOnly(bytes: Bytes, idx: nat, before: seq<Bytes>, seen: Mask,
                                          stack: seq<Bytes>, mask: Mask)
    requires idx <= 16 && |before| == Rank(seen, 16) && forall x | x in seen :: x < idx
    requires BranchFrom(bytes, idx, before, seen) == Ok(BranchNode(stack, mask))
    ensures |stack| == Rank(mask, 16) && Rank(mask, idx) == |before| && before <= stack && Lower(mask, idx) == seen
    ensures PiecesFrom(stack, |before|)
    ensures Concat(Slots(stack, mask, 16)[idx..]) + [0x80] <= bytes
    decreases 16 - idx
  {
    hide DecodeHeader, ChildLength, Piece, Rank, Slot, Concat, Lower, DecodeBytes;
    if idx == 16 {
      EmptyValue(bytes);
      LowerAll(seen);
      NoSlots(stack, mask);
    } else if bytes[0] == 0x80 {
      var x: Nibble := idx;
      BranchFromOnly(bytes[1..], idx + 1, before, seen, stack, mask);
      OnlySkipped(bytes, x, seen, stack, mask);
    } else {
      var x: Nibble := idx;
      var len := ChildLength(bytes);
      RankInsert(seen, x, 16);
      BranchFromOnly(bytes[len..], idx + 1, before + [bytes[..len]], seen + {x}, stack, mask);
      ChildIsPiece(bytes);
      OnlyChild(bytes, x, before, seen, stack, mask, len);
    }
  }

  lemma EmptyValue(bytes: Bytes)
    requires DecodeBytes(bytes, false).Ok? && DecodeBytes(bytes, false).value.0 == []
    ensures [0x80] <= bytes
  {
    NodeReadings.EmptyStarts(bytes, DecodeHeader(bytes).value);
  }

  lemma LowerAll(mask: Mask)
    ensures Lower(mask, 16) == mask
  {
  }

  lemma NoSlots(stack: seq<Bytes>, mask: Mask)
    requires |stack| == Rank(mask, 16)
    ensures Concat(Slots(stack, mask, 16)[16..]) == []
  {
    assert Slots(stack, mask, 16)[16..] == [];
  }

  lemma OnlySkipped(bytes: Bytes, x: Nibble, seen: Mask, stack: seq<Bytes>, mask: Mask)
    requires |stack| == Rank(mask, 16) && Lower(mask, x + 1) == seen && (forall y | y in seen :: y < x)
    requires bytes != [] && bytes[0] == 0x80 && Concat(Slots(stack, mask, 16)[x + 1..]) + [0x80] <= bytes[1..]
    ensures Rank(mask, x) == Rank(mask, x + 1) && Lower(mask, x) == seen
    ensures Concat(Slots(stack, mask, 16)[x..]) + [0x80] <= bytes
  {
    LowerNext(mask, x);
    assert x !in mask;
    SlotsNext(stack, mask, x);
    hide Concat;
    Prepended([0x80], Concat(Slots(stack, mask, 16)[x + 1..]), bytes);
  }

  lemma OnlyChild(bytes: Bytes, x: Nibble, before: seq<Bytes>, seen: Mask, stack: seq<Bytes>, mask: Mask, len: nat)
    requires |stack| == Rank(mask, 16) && Lower(mask, x + 1) == seen + {x} && (forall y | y in seen :: y < x)
    requires len <= |bytes| && Rank(mask, x + 1) == |before| + 1 && before + [bytes[..len]] <= stack
    requires PiecesFrom(stack, |before| + 1) && Piece(bytes[..len])
    requires Concat(Slots(stack, mask, 16)[x + 1..]) + [0x80] <= bytes[len..]
    ensures Rank(mask, x) == |before| && before <= stack && Lower(mask, x) == seen && PiecesFrom(stack, |before|)
    ensures Concat(Slots(stack, mask, 16)[x..]) + [0x80] <= bytes
  {
    assert x in Lower(mask, x + 1);
    SlotsNext(stack, mask, x);
    assert stack[|before|] == bytes[..len] == Slot(stack, mask, x);
    hide Concat, Piece;
    Prepended(bytes[..len], Concat(Slots(stack, mask, 16)[x + 1..]), bytes);
  }

  lemma Prepended(head: Bytes, rest: Bytes, bytes: Bytes)
    requires head <= bytes && rest + [0x80] <= bytes[|head|..]
    ensures (head + rest) + [0x80] <= bytes
  {
    assert bytes == head + bytes[|head|..];
  }

  /** The loop reads back the slots that stand in its input. */
  lemma {:induction false} BranchFromReads(bytes: Bytes, idx: nat, stack: seq<Bytes>, mask: Mask)
    requires idx <= 16 && |stack| == Rank(mask, 16) && Rank(mask, idx) <= |stack|
    requires PiecesFrom(stack, Rank(mask, idx))
    requires Concat(Slots(stack, mask, 16)[idx..]) + [0x80] <= bytes
    ensures BranchFrom(bytes, idx, stack[..Rank(mask, idx)], Lower(mask, idx)) == Ok(BranchNode(stack, mask))
    decreases 16 - idx
  {
    hide DecodeHeader, ChildLength, Piece, Rank, Slot, Concat, Lower, DecodeBytes;
    if idx == 16 {
      NoSlots(stack, mask);
      ValueEmpty(bytes);
      LowerAll(mask);
      assert stack[..|stack|] == stack;
    } else {
      var x: Nibble := idx;
      RankMonotone(mask, x + 1, 16);
      SlotsNext(stack, mask, x);
      LowerNext(mask, x);
      RankNext(mask, x);
      if x in mask {
        ReadChild(bytes, x, stack, mask);
        BranchFromReads(bytes[|stack[Rank(mask, x)]|..], idx + 1, stack, mask);
        assert stack[..Rank(mask, x + 1)] == stack[..Rank(mask, x)] + [stack[Rank(mask, x)]];
      } else {
        ReadNothing(bytes, x, stack, mask);
        BranchFromReads(bytes[1..], idx + 1, stack, mask);
      }
    }
  }

  lemma RankNext(mask: Mask, x: Nibble)
    ensures Rank(mask, x + 1) == Rank(mask, x) + if x in mask then 1 else 0
  {
  }

  lemma ValueEmpty(bytes: Bytes)
    requires [0x80] <= bytes
    ensures var r := DecodeBytes(bytes, false); r.Ok? && r.value.0 == []
  {
    assert bytes == [0x80] + bytes[1..];
    hide DecodeBytes;
    StringRoundTrip([], bytes[1..]);
    assert EncodeString([]) == [0x80];
  }

  lemma ReadNothing(bytes: Bytes, x: Nibble, stack: seq<Bytes>, mask: Mask)
    requires |stack| == Rank(mask, 16) && x !in mask
    requires Slot(stack, mask, x) + Concat(Slots(stack, mask, 16)[x + 1..]) + [0x80] <= bytes
    ensures |bytes| > 1 && bytes[0] == 0x80 && Concat(Slots(stack, mask, 16)[x + 1..]) + [0x80] <= bytes[1..]
  {
    hide Concat;
    Behead(Slot(stack, mask, x), Concat(Slots(stack, mask, 16)[x + 1..]), bytes);
  }

  lemma ReadChild(bytes: Bytes, x: Nibble, stack: seq<Bytes>, mask: Mask)
    requires |stack| == Rank(mask, 16) && x in mask && Rank(mask, x) < |stack| && Piece(stack[Rank(mask, x)])
    requires Slot(stack, mask, x) + Concat(Slots(stack, mask, 16)[x + 1..]) + [0x80] <= bytes
    ensures var s := stack[Rank(mask, x)];
            && |bytes| > 1 && bytes[0] != 0x80 && DecodeHeader(bytes).Ok? && ChildLength(bytes) == |s| <= 33
            && bytes[..|s|] == s && Concat(Slots(stack, mask, 16)[x + 1..]) + [0x80] <= bytes[|s|..]
  {
    hide Concat, DecodeHeader, ChildLength;
    var s := stack[Rank(mask, x)];
    Behead(s, Concat(Slots(stack, mask, 16)[x + 1..]), bytes);
    assert |s| <= 33;
    hide Piece;
    PieceIsChild(s, bytes[|s|..]);
  }

  lemma Behead(head: Bytes, rest: Bytes, bytes: Bytes)
    requires head + rest + [0x80] <= bytes
    ensures |head| < |bytes| && bytes == head + bytes[|head|..] && rest + [0x80] <= bytes[|head|..]
    ensures bytes[|head|..] != [] && bytes[..|head|] == head
  {
    var all := head + rest + [0x80];
    assert all == head + (rest + [0x80]);
    assert bytes[..|all|] == all;
    assert bytes[|head|..][..|rest| + 1] == rest + [0x80];
  }

  /** The second decoder reads a branch exactly from a list that starts with a slot for every nibble,
      empty or taken for a child, and an empty value. */
  lemma BranchDecodesExactly(b: Bytes, stack: seq<Bytes>, mask: Mask)
    ensures DecodeBranch(b) == Ok(BranchNode(stack, mask)) <==>
            && |stack| == Rank(mask, 16) && PiecesFrom(stack, 0)
            && var r := DecodeBytes(b, true);
               r.Ok? && Concat(Slots(stack, mask, 16)) + [0x80] <= r.value.0
  {
    hide BranchFrom, DecodeBytes, Rank, Slot, Concat, Lower, Piece;
    var r := DecodeBytes(b, true);
    RankNone(16);
    RankZero(mask);
    if r.Ok? && BranchFrom(r.value.0, 0, [], {}) == Ok(BranchNode(stack, mask)) {
      BranchFromOnly(r.value.0, 0, [], {}, stack, mask);
      assert Slots(stack, mask, 16)[0..] == Slots(stack, mask, 16);
    }
    if |stack| == Rank(mask, 16) && PiecesFrom(stack, 0) && r.Ok? &&
       Concat(Slots(stack, mask, 16)) + [0x80] <= r.value.0
    {
      assert Slots(stack, mask, 16)[0..] == Slots(stack, mask, 16);
      BranchFromReads(r.value.0, 0, stack, mask);
      LowerNone(mask);
      assert stack[..0] == [];
    }
  }

  lemma RankZero(mask: Mask)
    ensures Rank(mask, 0) == 0
  {
  }
}
