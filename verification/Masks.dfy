/** Sets of child nibbles, which the source keeps as the bits of a 16-bit word. */
module Masks {
  import opened Primitives

  type Mask = set<Nibble>

  /** The number of nibbles of a mask below hi. */
  function Rank(mask: Mask, hi: nat): (n: nat)
    requires hi <= 16
    ensures n <= hi
  {
    if hi == 0 then 0 else Rank(mask, hi - 1) + if hi - 1 in mask then 1 else 0
  }

  lemma {:induction false} RankMonotone(mask: Mask, x: nat, hi: nat)
    requires x <= hi <= 16
    ensures Rank(mask, x) <= Rank(mask, hi)
    ensures x < hi && x in mask ==> Rank(mask, x) < Rank(mask, hi)
  {
    if x < hi {
      RankMonotone(mask, x, hi - 1);
    }
  }

  /** The nibbles of a mask below hi. */
  function Lower(mask: Mask, hi: nat): (r: Mask) {
    set x | x in mask && x < hi
  }

  lemma LowerNext(mask: Mask, x: Nibble)
    ensures Lower(mask, x + 1) == if x in mask then Lower(mask, x) + {x} else Lower(mask, x)
  {
  }
}
