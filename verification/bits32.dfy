/** Single bits of a 32-bit word.

    Java's `int` descriptor words are modelled as `bv32`: the bit patterns
    agree, and the operations applied to them (`1 << b`, `|`, `&`) act on
    the bit pattern alone, so the sign of a Java `int` plays no part.  Bit
    positions are `bv5` values, which is exactly the range `0 .. 31` a
    Java shift of an `int` uses.

    The bit-level lemmas are small facts about one or two words with no
    quantifier in them; `SameBitsEqual` reaches its quantified premise only
    through `SameBitsAt`, one position at a time, and the packing proofs
    combine these facts position by position.
 */
module Bits32 {

  /** The word with only bit `b` set: Java's `1 << b`. */
  function Mask(b: bv5): bv32
  {
    1 << b
  }

  /** Bit `b` of `w` is set. */
  predicate BitOf(w: bv32, b: bv5)
  {
    w & Mask(b) != 0
  }

  /** The cleared word has no bit set. */
  lemma ZeroHasNoBits(b: bv5)
    ensures !BitOf(0, b)
  {
  }

  /** `w | (1 << b)` has bit `b` set. */
  lemma SetSame(w: bv32, b: bv5)
    ensures BitOf(w | Mask(b), b)
  {
  }

  /** `w | (1 << b)` keeps every other bit of `w`. */
  lemma SetOther(w: bv32, b: bv5, c: bv5)
    requires b != c
    ensures BitOf(w | Mask(b), c) <==> BitOf(w, c)
  {
    assert Mask(b) & Mask(c) == 0;
  }

  /** Setting bit `b` sets bit `b` and changes no other bit. */
  lemma BitOfSet(w: bv32, b: bv5, c: bv5)
    ensures BitOf(w | Mask(b), c) <==> (BitOf(w, c) || b == c)
  {
    if b == c {
      SetSame(w, b);
    } else {
      SetOther(w, b, c);
    }
  }

  /** Two words with the same bit at every position. */
  ghost predicate SameBits(w1: bv32, w2: bv32)
  {
    forall b: bv5 :: BitOf(w1, b) <==> BitOf(w2, b)
  }

  lemma SameBitsAt(w1: bv32, w2: bv32, b: bv5)
    requires SameBits(w1, w2)
    ensures BitOf(w1, b) == BitOf(w2, b)
  {
  }

  /** Agreement on all 32 positions, listed one by one, is equality. */
  lemma AgreeOnAllPositions(w1: bv32, w2: bv32)
    requires BitOf(w1, 0) == BitOf(w2, 0) && BitOf(w1, 1) == BitOf(w2, 1) && BitOf(w1, 2) == BitOf(w2, 2) && BitOf(w1, 3) == BitOf(w2, 3)
    requires BitOf(w1, 4) == BitOf(w2, 4) && BitOf(w1, 5) == BitOf(w2, 5) && BitOf(w1, 6) == BitOf(w2, 6) && BitOf(w1, 7) == BitOf(w2, 7)
    requires BitOf(w1, 8) == BitOf(w2, 8) && BitOf(w1, 9) == BitOf(w2, 9) && BitOf(w1, 10) == BitOf(w2, 10) && BitOf(w1, 11) == BitOf(w2, 11)
    requires BitOf(w1, 12) == BitOf(w2, 12) && BitOf(w1, 13) == BitOf(w2, 13) && BitOf(w1, 14) == BitOf(w2, 14) && BitOf(w1, 15) == BitOf(w2, 15)
    requires BitOf(w1, 16) == BitOf(w2, 16) && BitOf(w1, 17) == BitOf(w2, 17) && BitOf(w1, 18) == BitOf(w2, 18) && BitOf(w1, 19) == BitOf(w2, 19)
    requires BitOf(w1, 20) == BitOf(w2, 20) && BitOf(w1, 21) == BitOf(w2, 21) && BitOf(w1, 22) == BitOf(w2, 22) && BitOf(w1, 23) == BitOf(w2, 23)
    requires BitOf(w1, 24) == BitOf(w2, 24) && BitOf(w1, 25) == BitOf(w2, 25) && BitOf(w1, 26) == BitOf(w2, 26) && BitOf(w1, 27) == BitOf(w2, 27)
    requires BitOf(w1, 28) == BitOf(w2, 28) && BitOf(w1, 29) == BitOf(w2, 29) && BitOf(w1, 30) == BitOf(w2, 30) && BitOf(w1, 31) == BitOf(w2, 31)
    ensures w1 == w2
  {
  }

  /** A word is determined by its 32 bits. */
  lemma SameBitsEqual(w1: bv32, w2: bv32)
    requires SameBits(w1, w2)
    ensures w1 == w2
  {
    SameBitsAt(w1, w2, 0); SameBitsAt(w1, w2, 1); SameBitsAt(w1, w2, 2); SameBitsAt(w1, w2, 3); SameBitsAt(w1, w2, 4); SameBitsAt(w1, w2, 5); SameBitsAt(w1, w2, 6); SameBitsAt(w1, w2, 7);
    SameBitsAt(w1, w2, 8); SameBitsAt(w1, w2, 9); SameBitsAt(w1, w2, 10); SameBitsAt(w1, w2, 11); SameBitsAt(w1, w2, 12); SameBitsAt(w1, w2, 13); SameBitsAt(w1, w2, 14); SameBitsAt(w1, w2, 15);
    SameBitsAt(w1, w2, 16); SameBitsAt(w1, w2, 17); SameBitsAt(w1, w2, 18); SameBitsAt(w1, w2, 19); SameBitsAt(w1, w2, 20); SameBitsAt(w1, w2, 21); SameBitsAt(w1, w2, 22); SameBitsAt(w1, w2, 23);
    SameBitsAt(w1, w2, 24); SameBitsAt(w1, w2, 25); SameBitsAt(w1, w2, 26); SameBitsAt(w1, w2, 27); SameBitsAt(w1, w2, 28); SameBitsAt(w1, w2, 29); SameBitsAt(w1, w2, 30); SameBitsAt(w1, w2, 31);
    AgreeOnAllPositions(w1, w2);
  }
}
