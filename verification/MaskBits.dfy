/** The 16-bit words behind the masks: each operation on words is the set operation that the
    rest of the model uses. */
module MaskBits {
  import opened Primitives
  import opened Masks

  /** The bit of a nibble, written out so that no proof shifts by a variable. */
  function FromNibble(x: Nibble): (w: bv16) {
    match x
    case 0 => 0x1 case 1 => 0x2 case 2 => 0x4 case 3 => 0x8
    case 4 => 0x10 case 5 => 0x20 case 6 => 0x40 case 7 => 0x80
    case 8 => 0x100 case 9 => 0x200 case 10 => 0x400 case 11 => 0x800
    case 12 => 0x1000 case 13 => 0x2000 case 14 => 0x4000 case _ => 0x8000
  }

  /** It is what `from_nibble` computes. */
  lemma Shifted(x: Nibble)
    ensures FromNibble(x) == 1 << x
  {
    match x
    case 0 => case 1 => case 2 => case 3 => case 4 => case 5 => case 6 => case 7 =>
    case 8 => case 9 => case 10 => case 11 => case 12 => case 13 => case 14 => case _ =>
  }

  /** The words have a bit in common. */
  predicate Has(w: bv16, bit: bv16) {
    w & bit != 0
  }

  predicate IsBitSet(w: bv16, x: Nibble) {
    Has(w, FromNibble(x))
  }

  /** The nibbles whose bits are set. */
  function SetOf(w: bv16): (s: Mask) {
    set x: Nibble | IsBitSet(w, x)
  }

  // ----- Single bits (a result is named so that the solver sees words, not operations) -----

  predicate IsOr(a: bv16, b: bv16, c: bv16) {
    c == a | b
  }

  predicate IsAnd(a: bv16, b: bv16, c: bv16) {
    c == a & b
  }

  predicate IsAndNot(a: bv16, b: bv16, c: bv16) {
    c == a & !b
  }

  /** Exactly one bit is set. */
  predicate Single(bit: bv16) {
    bit != 0 && bit & (bit - 1) == 0
  }

  lemma SingleBit(x: Nibble)
    ensures Single(FromNibble(x))
  {
  }

  lemma PlainOr(a: bv16, b: bv16, bit: bv16)
    ensures (a | b) & bit != 0 <==> a & bit != 0 || b & bit != 0
  {
  }

  lemma OneOrAll(w: bv16, bit: bv16)
    requires bit & (bit - 1) == 0
    ensures w & bit == 0 || w & bit == bit
  {
  }

  lemma WithBit(a: bv16, b: bv16, bit: bv16)
    requires b & bit == bit
    ensures (a & b) & bit == a & bit && (a & !b) & bit == 0
  {
  }

  lemma WithoutBit(a: bv16, b: bv16, bit: bv16)
    requires b & bit == 0
    ensures (a & b) & bit == 0 && (a & !b) & bit == a & bit
  {
  }

  lemma PlainAnd(a: bv16, b: bv16, bit: bv16)
    requires bit != 0 && bit & (bit - 1) == 0
    ensures (a & b) & bit != 0 <==> a & bit != 0 && b & bit != 0
    ensures (a & !b) & bit != 0 <==> a & bit != 0 && b & bit == 0
  {
    OneOrAll(b, bit);
    if b & bit == 0 {
      WithoutBit(a, b, bit);
    } else {
      WithBit(a, b, bit);
    }
  }

  lemma BitOr(a: bv16, b: bv16, c: bv16, bit: bv16)
    requires IsOr(a, b, c)
    ensures Has(c, bit) <==> Has(a, bit) || Has(b, bit)
  {
    PlainOr(a, b, bit);
  }

  lemma BitAnd(a: bv16, b: bv16, c: bv16, bit: bv16)
    requires Single(bit) && IsAnd(a, b, c)
    ensures Has(c, bit) <==> Has(a, bit) && Has(b, bit)
  {
    PlainAnd(a, b, bit);
  }

  lemma BitAndNot(a: bv16, b: bv16, c: bv16, bit: bv16)
    requires Single(bit) && IsAndNot(a, b, c)
    ensures Has(c, bit) <==> Has(a, bit) && !Has(b, bit)
  {
    PlainAnd(a, b, bit);
  }

  // ----- Set operations -----

  /** A word from a nibble is the set of that nibble alone. */
  lemma NibbleWord(x: Nibble)
    ensures SetOf(FromNibble(x)) == {x}
  {
    hide IsBitSet, FromNibble;
    forall y: Nibble
      ensures IsBitSet(FromNibble(x), y) <==> x == y
    {
      BitOfNibble(x, y);
    }
  }

  lemma BitOfNibble(x: Nibble, y: Nibble)
    ensures IsBitSet(FromNibble(x), y) <==> x == y
  {
  }

  lemma OpsAt(a: bv16, b: bv16, c: bv16, x: Nibble)
    ensures IsOr(a, b, c) ==> (IsBitSet(c, x) <==> IsBitSet(a, x) || IsBitSet(b, x))
    ensures IsAnd(a, b, c) ==> (IsBitSet(c, x) <==> IsBitSet(a, x) && IsBitSet(b, x))
    ensures IsAndNot(a, b, c) ==> (IsBitSet(c, x) <==> IsBitSet(a, x) && !IsBitSet(b, x))
  {
    hide FromNibble, Single, Has, IsOr, IsAnd, IsAndNot;
    SingleBit(x);
    if IsOr(a, b, c) {
      BitOr(a, b, c, FromNibble(x));
    }
    if IsAnd(a, b, c) {
      BitAnd(a, b, c, FromNibble(x));
    }
    if IsAndNot(a, b, c) {
      BitAndNot(a, b, c, FromNibble(x));
    }
  }

  /** `|` is union. */
  lemma OrIsUnion(a: bv16, b: bv16, c: bv16)
    requires IsOr(a, b, c)
    ensures SetOf(c) == SetOf(a) + SetOf(b)
  {
    hide IsBitSet, IsOr, IsAnd, IsAndNot;
    forall x: Nibble
      ensures IsBitSet(c, x) <==> IsBitSet(a, x) || IsBitSet(b, x)
    {
      OpsAt(a, b, c, x);
    }
  }

  /** `&` is intersection. */
  lemma AndIsIntersection(a: bv16, b: bv16, c: bv16)
    requires IsAnd(a, b, c)
    ensures SetOf(c) == SetOf(a) * SetOf(b)
  {
    hide IsBitSet, IsOr, IsAnd, IsAndNot;
    forall x: Nibble
      ensures IsBitSet(c, x) <==> IsBitSet(a, x) && IsBitSet(b, x)
    {
      OpsAt(a, b, c, x);
    }
  }

  /** `& !` is difference. */
  lemma AndNotIsDifference(a: bv16, b: bv16, c: bv16)
    requires IsAndNot(a, b, c)
    ensures SetOf(c) == SetOf(a) - SetOf(b)
  {
    hide IsBitSet, IsOr, IsAnd, IsAndNot;
    forall x: Nibble
      ensures IsBitSet(c, x) <==> IsBitSet(a, x) && !IsBitSet(b, x)
    {
      OpsAt(a, b, c, x);
    }
  }

  // ----- The lowest bit -----

  /** The bits below n: `from_nibble(n) - 1`. */
  function LowBits(n: nat): (w: bv16)
    requires n <= 16
  {
    if n == 16 then 0xFFFF else FromNibble(n) - 1
  }

  predicate NoneBelow(w: bv16, n: nat)
    requires n <= 16
  {
    !Has(w, LowBits(n))
  }

  lemma NoneBelowEnds(w: bv16)
    ensures NoneBelow(w, 0) && (NoneBelow(w, 16) <==> w == 0)
  {
  }

  lemma NoneBelowNext(w: bv16, n: Nibble)
    requires NoneBelow(w, n) && !IsBitSet(w, n)
    ensures NoneBelow(w, n + 1)
  {
    hide LowBits, FromNibble, Has, IsOr;
    LowBitsNext(n);
    NoLowerBit(w, LowBits(n), FromNibble(n), LowBits(n + 1));
  }

  lemma LowBitsNext(n: Nibble)
    ensures IsOr(LowBits(n), FromNibble(n), LowBits(n + 1))
  {
  }

  lemma NoLowerBit(w: bv16, low: bv16, bit: bv16, next: bv16)
    requires !Has(w, low) && !Has(w, bit) && IsOr(low, bit, next)
    ensures !Has(w, next)
  {
    Distributes(w, low, bit);
  }

  lemma Distributes(w: bv16, low: bv16, bit: bv16)
    ensures w & (low | bit) == (w & low) | (w & bit)
  {
  }

  /** A set bit makes a word differ from zero. */
  lemma SomeBit(w: bv16, x: Nibble)
    requires IsBitSet(w, x)
    ensures w != 0
  {
  }

  /** The index of the lowest set bit, 16 when there is none. */
  method TrailingZeros(w: bv16) returns (n: nat)
    ensures n <= 16 && (n == 16 <==> w == 0)
    ensures n < 16 ==> IsBitSet(w, n) && NoneBelow(w, n)
  {
    hide IsBitSet, NoneBelow, LowBits, FromNibble;
    n := 0;
    NoneBelowEnds(w);
    while n < 16 && !IsBitSet(w, n)
      invariant n <= 16 && NoneBelow(w, n)
    {
      NoneBelowNext(w, n);
      n := n + 1;
    }
    if n < 16 {
      SomeBit(w, n);
    }
  }

  lemma LowBitAt(n: Nibble, x: Nibble)
    ensures IsBitSet(LowBits(n), x) <==> x < n
  {
  }

  /** `mask & (from_nibble(n) - 1)` is the part of the mask below n. */
  lemma LowPart(a: bv16, n: Nibble, c: bv16)
    requires IsAnd(a, LowBits(n), c)
    ensures SetOf(c) == Lower(SetOf(a), n)
  {
    hide IsBitSet, LowBits;
    AndIsIntersection(a, LowBits(n), c);
    forall x: Nibble
      ensures IsBitSet(LowBits(n), x) <==> x < n
    {
      LowBitAt(n, x);
    }
  }

  lemma NoneBelowAt(w: bv16, n: Nibble, x: Nibble)
    requires NoneBelow(w, n) && x < n
    ensures !IsBitSet(w, x)
  {
    hide FromNibble, LowBits, IsBitSet;
    var zero: bv16 := 0;
    assert IsAnd(w, LowBits(n), zero);
    OpsAt(w, LowBits(n), zero, x);
    LowBitAt(n, x);
    ZeroAt(x);
  }

  lemma ZeroAt(x: Nibble)
    ensures !IsBitSet(0, x)
  {
  }

  predicate IsBelow(bit: bv16, low: bv16) {
    low == bit - 1
  }

  predicate IsCleared(w: bv16, c: bv16) {
    c == w & (w - 1)
  }

  /** With no bit below the lowest one, subtracting one and masking clears just that bit. */
  lemma ClearLowest(w: bv16, low: bv16, bit: bv16, c: bv16)
    requires Single(bit) && IsBelow(bit, low) && !Has(w, low) && Has(w, bit) && IsCleared(w, c)
    ensures IsAndNot(w, bit, c)
  {
    PlainClear(w, bit);
  }

  lemma PlainClear(w: bv16, bit: bv16)
    requires bit != 0 && bit & (bit - 1) == 0 && w & (bit - 1) == 0 && w & bit != 0
    ensures w & (w - 1) == w & !bit
  {
  }

  /** One step of the mask iterator: it yields the lowest nibble and clears exactly that bit. */
  method NextBit(w: bv16) returns (bit: Option<Nibble>, rest: bv16)
    ensures bit.None? <==> SetOf(w) == {}
    ensures bit.Some? ==> bit.value in SetOf(w) && forall x | x in SetOf(w) :: bit.value <= x
    ensures SetOf(rest) == if bit.Some? then SetOf(w) - {bit.value} else SetOf(w)
  {
    hide IsBitSet, NoneBelow, LowBits, FromNibble;
    if w == 0 {
      forall x: Nibble
        ensures !IsBitSet(w, x)
      {
        ZeroAt(x);
      }
      return None, w;
    }
    var n := TrailingZeros(w);
    rest := w & (w - 1);
    ClearsLowest(w, n, rest);
    bit := Some(n);
    assert n in SetOf(w);
  }

  lemma ClearsLowest(w: bv16, n: Nibble, c: bv16)
    requires IsBitSet(w, n) && NoneBelow(w, n) && IsCleared(w, c)
    ensures SetOf(c) == SetOf(w) - {n} && forall x | x in SetOf(w) :: n <= x
  {
    hide FromNibble, Single, Has, IsCleared, IsBelow, IsAndNot;
    assert IsBelow(FromNibble(n), LowBits(n)) by { BelowBit(n); }
    SingleBit(n);
    ClearLowest(w, LowBits(n), FromNibble(n), c);
    NibbleWord(n);
    AndNotIsDifference(w, FromNibble(n), c);
    hide IsBitSet, NoneBelow, LowBits;
    forall x: Nibble | x < n
      ensures !IsBitSet(w, x)
    {
      NoneBelowAt(w, n, x);
    }
  }

  lemma BelowBit(n: Nibble)
    ensures IsBelow(FromNibble(n), LowBits(n))
  {
  }

  // ----- Counting -----

  /** A rank is a number of nibbles. */
  lemma {:induction false} RankIsSize(mask: Mask, hi: nat)
    requires hi <= 16
    ensures Rank(mask, hi) == |Lower(mask, hi)|
  {
    if hi > 0 {
      RankIsSize(mask, hi - 1);
      LowerNext(mask, hi - 1);
    } else {
      assert Lower(mask, 0) == {};
    }
  }

  /** `count_ones`: clears the lowest bit until none is left. */
  method CountOnes(w: bv16) returns (n: nat)
    ensures n == |SetOf(w)| == Rank(SetOf(w), 16)
  {
    hide SetOf;
    n := 0;
    var rest := w;
    var bit := None;
    var more := true;
    while more
      invariant n + |SetOf(rest)| == |SetOf(w)|
      invariant !more ==> SetOf(rest) == {}
      decreases more, |SetOf(rest)|
    {
      bit, rest := NextBit(rest);
      if bit.Some? {
        n := n + 1;
      } else {
        more := false;
      }
    }
    RankIsSize(SetOf(w), 16);
    assert Lower(SetOf(w), 16) == SetOf(w);
  }

  /** The index that `hash_for_nibble` computes is the rank of the nibble. */
  method HashIndex(hashMask: bv16, x: Nibble) returns (index: nat)
    ensures index == Rank(SetOf(hashMask), x)
  {
    hide SetOf, LowBits;
    var low := hashMask & LowBits(x);
    index := CountOnes(low);
    LowPart(hashMask, x, low);
    RankIsSize(SetOf(hashMask), x);
  }

  /** `is_subset_of`. */
  lemma SubsetWord(a: bv16, b: bv16, c: bv16)
    requires IsAnd(a, b, c)
    ensures c == a <==> SetOf(a) <= SetOf(b)
  {
    hide SetOf;
    AndIsIntersection(a, b, c);
    if SetOf(c) == SetOf(a) {
      var d := a & !b;
      AndNotIsDifference(a, b, d);
      assert SetOf(d) == {};
      EmptyWord(d);
      SplitWord(a, b, c, d);
    }
  }

  lemma EmptyWord(w: bv16)
    ensures w == 0 <==> SetOf(w) == {}
  {
    hide IsBitSet;
    if w == 0 {
      forall x: Nibble
        ensures !IsBitSet(w, x)
      {
        ZeroAt(x);
      }
    } else {
      var n := LowestBit(w, 0);
      assert n in SetOf(w);
    }
  }

  lemma {:induction false} LowestBit(w: bv16, n: nat) returns (x: Nibble)
    requires n <= 16 && w != 0 && NoneBelow(w, n)
    ensures IsBitSet(w, x)
    decreases 16 - n
  {
    hide IsBitSet, NoneBelow;
    NoneBelowEnds(w);
    if IsBitSet(w, n) {
      x := n;
    } else {
      NoneBelowNext(w, n);
      x := LowestBit(w, n + 1);
    }
  }

  lemma SplitWord(a: bv16, b: bv16, c: bv16, d: bv16)
    requires c == a & b && d == a & !b && d == 0
    ensures c == a
  {
  }
}
